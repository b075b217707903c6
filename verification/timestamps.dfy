/** Timestamps as the DTO layer carries them: RFC 3339 text. The characters themselves are not
    modelled. A timestamp string is one of the spellings below, and every spelling the parser
    accepts names the instant (whole seconds) it denotes. Spelling is not unique: chrono reads
    "Z", any numeric offset and fractional seconds, while the program writes two different
    spellings of its own. */
module Timestamps {
  import opened Base

  datatype Stamp =
    | Offset(seconds: int)              // `to_rfc3339` of a UTC instant: `...T..:..:..+00:00`
    | Zulu(seconds: int)                // `format("%Y-%m-%dT%H:%M:%SZ")`: `...T..:..:..Z`
    | Alias(seconds: int, text: string) // another accepted spelling: another offset or a fraction
    | Unparsable(text: string)          // text that `parse_from_rfc3339` rejects

  /** `DateTime::<Utc>::to_rfc3339`: the `+00:00` spelling. */
  function ToRfc3339(at: int): Stamp {
    Offset(at)
  }

  /** `format_datetime`: the `Z` spelling. */
  function FormatZulu(at: int): Stamp {
    Zulu(at)
  }

  /** `DateTime::parse_from_rfc3339(..).with_timezone(&Utc)`: every accepted spelling gives
      the instant it denotes; anything else is an error naming the text. */
  function Parse(s: Stamp): (r: Result<int>)
    ensures r.Ok? <==> !s.Unparsable?
    ensures r.Ok? ==> r.value == s.seconds
    ensures r.Err? ==> r.error == MalformedTimestamp(s.text)
  {
    match s
    case Offset(at) => Ok(at)
    case Zulu(at) => Ok(at)
    case Alias(at, _) => Ok(at)
    case Unparsable(text) => Err(MalformedTimestamp(text))
  }

  /** Both renderings parse back to the instant they were made from. */
  lemma RoundTrip(at: int)
    ensures Parse(ToRfc3339(at)) == Ok(at)
    ensures Parse(FormatZulu(at)) == Ok(at)
  {
  }

  /** Rendering a parsed instant again keeps the instant, though not always the spelling:
      `Z` text comes back with `+00:00`. */
  lemma RenderKeepsInstant(s: Stamp)
    requires Parse(s).Ok?
    ensures Parse(ToRfc3339(Parse(s).value)) == Parse(s)
    ensures Parse(FormatZulu(Parse(s).value)) == Parse(s)
    ensures s.Zulu? ==> ToRfc3339(Parse(s).value) != s
  {
  }
}
