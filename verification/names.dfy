/** The name rule `Project` and `Task` apply in `new`, `new_with_time` and `change_name`:
    the name must not be blank and its untrimmed UTF-8 length must not exceed 255 bytes;
    the trimmed name is what gets stored. */
module Names {
  import opened Base
  import opened Text

  const MaxNameBytes: nat := 255

  /** A proposed name the rule accepts. */
  predicate Acceptable(name: string) {
    !AllWhitespace(name) && ByteLen(name) <= MaxNameBytes
  }

  /** A name as entities hold it: trimmed, non-empty and within the byte limit. */
  predicate Stored(name: string) {
    IsTrimmed(name) && name != [] && ByteLen(name) <= MaxNameBytes
  }

  /** Checks a proposed name and yields the name to store. The blank check comes first,
      so a long blank name is reported as empty. */
  function Validate(kind: Kind, name: string): (r: Result<string>)
    ensures r.Ok? <==> Acceptable(name)
    ensures AllWhitespace(name) ==> r == Err(NameEmpty(kind))
    ensures !AllWhitespace(name) && ByteLen(name) > MaxNameBytes ==> r == Err(NameTooLong(kind))
    ensures r.Ok? ==> Stored(r.value) && IsTrimmingOf(r.value, name)
  {
    TrimEmptyIff(name);
    TrimSpec(name);
    TrimByteLen(name);
    if Trim(name) == [] then Err(NameEmpty(kind))
    else if ByteLen(name) > MaxNameBytes then Err(NameTooLong(kind))
    else Ok(Trim(name))
  }

  /** A stored name passes the rule again unchanged: rebuilding an entity from its stored
      fields cannot fail on the name. */
  lemma StoredRevalidates(kind: Kind, name: string)
    requires Stored(name)
    ensures Validate(kind, name) == Ok(name)
  {
    TrimOfTrimmed(name);
    assert !IsWhitespace(name[0]);
  }
}
