/** The `HH:MM:SS` rendering of a number of seconds used by `TimeEntry::elapsed_duration`
    and the DTO layer, with Rust's i64 arithmetic: `/` truncates toward zero, `%` takes the
    sign of the dividend, and `{:02}` pads to two characters counting a minus sign. */
module Durations {
  import opened Base
  import opened Text

  /** Rust's `a / b` on i64 for a positive divisor. */
  function Quot(a: int, b: int): int
    requires b > 0
  {
    if a >= 0 then a / b else -((-a) / b)
  }

  /** Rust's `a % b` on i64 for a positive divisor. */
  function Rem(a: int, b: int): int
    requires b > 0
  {
    a - b * Quot(a, b)
  }

  lemma QuotRem(a: int, b: int)
    requires b > 0
    ensures a == b * Quot(a, b) + Rem(a, b)
    ensures a >= 0 ==> 0 <= Rem(a, b) < b && Quot(a, b) == a / b
    ensures a < 0 ==> -b < Rem(a, b) <= 0
  {
  }

  /** `format!("{:02}", n)`. */
  function Pad2(n: int): (s: string)
    ensures 2 <= |s|
    ensures 0 <= n < 100 ==> |s| == 2
  {
    if n < 0 then "-" + Decimal(-n)
    else if n < 10 then "0" + Decimal(n)
    else
      assert n < 100 ==> Decimal(n) == Decimal(n / 10) + [DigitChar(n % 10)];
      Decimal(n)
  }

  /** `format!("{:02}:{:02}:{:02}", hours, minutes, secs)` on the truncating split. */
  function FormatHms(seconds: int): string {
    var hours := Quot(seconds, 3600);
    var minutes := Quot(Rem(seconds, 3600), 60);
    var secs := Rem(seconds, 60);
    Pad2(hours) + ":" + Pad2(minutes) + ":" + Pad2(secs)
  }

  /** Reads `H..H:MM:SS` back into seconds; the inverse of `FormatHms` on durations that are
      not negative. */
  function ParseHms(t: string): (r: Option<int>)
    ensures r.Some? ==> r.value >= 0
  {
    var n := |t|;
    if n < 8 || t[n - 3] != ':' || t[n - 6] != ':' then None
    else
      var h := ParseDecimal(t[..n - 6]);
      var m := ParseDecimal(t[n - 5..n - 3]);
      var s := ParseDecimal(t[n - 2..]);
      if h.Some? && m.Some? && s.Some? then Some(h.value * 3600 + m.value * 60 + s.value) else None
  }

  /** For a non-negative duration the three fields are hours, minutes under 60 and seconds
      under 60, and they add back up to the duration. */
  lemma Split(seconds: int)
    requires seconds >= 0
    ensures var h := Quot(seconds, 3600);
            var m := Quot(Rem(seconds, 3600), 60);
            var s := Rem(seconds, 60);
            h >= 0 && 0 <= m < 60 && 0 <= s < 60 && h * 3600 + m * 60 + s == seconds
  {
    var h, r := seconds / 3600, seconds % 3600;
    var m, s := r / 60, r % 60;
    assert Quot(seconds, 3600) == h && Rem(seconds, 3600) == r;
    assert Quot(r, 60) == m;
    assert seconds == 60 * (60 * h + m) + s;
    assert seconds % 60 == s;
    assert Rem(seconds, 60) == s;
  }

  lemma Pad2Value(n: int)
    requires n >= 0
    ensures ParseDecimal(Pad2(n)) == Some(n)
  {
    DecimalRoundTrip(n);
    if n < 10 {
      LeadingZero(Decimal(n));
    }
  }

  /** Rendering a non-negative duration and reading it back gives the duration. */
  lemma FormatParseRoundTrip(seconds: int)
    requires seconds >= 0
    ensures ParseHms(FormatHms(seconds)) == Some(seconds)
  {
    Split(seconds);
    var h := Quot(seconds, 3600);
    var m := Quot(Rem(seconds, 3600), 60);
    var s := Rem(seconds, 60);
    Pad2Value(h);
    Pad2Value(m);
    Pad2Value(s);
    var a, b, c := Pad2(h), Pad2(m), Pad2(s);
    var t := a + ":" + b + ":" + c;
    assert t == FormatHms(seconds);
    var n := |t|;
    assert t[..n - 6] == a;
    assert t[n - 5..n - 3] == b;
    assert t[n - 2..] == c;
  }
}

/** Concrete renderings, kept apart from the definitions they exercise. */
module DurationExamples {
  import opened Text
  import opened Durations

  lemma PadDigit(d: nat)
    requires d < 10
    ensures Pad2(d) == ['0', DigitChar(d)]
  {
    assert Decimal(d) == [DigitChar(d)];
  }

  lemma Fields(seconds: int, h: int, m: int, s: int)
    requires Quot(seconds, 3600) == h && Quot(Rem(seconds, 3600), 60) == m && Rem(seconds, 60) == s
    ensures FormatHms(seconds) == Pad2(h) + ":" + Pad2(m) + ":" + Pad2(s)
  {
  }

  /** The renderings the DTO layer promises for nothing, one hour one minute one second,
      two hours and a day. */
  lemma ExampleZero()
    ensures FormatHms(0) == "00:00:00"
  {
    Fields(0, 0, 0, 0);
    PadDigit(0);
  }

  lemma ExampleMixed()
    ensures FormatHms(3661) == "01:01:01"
  {
    Fields(3661, 1, 1, 1);
    PadDigit(1);
  }

  lemma ExampleHours()
    ensures FormatHms(7200) == "02:00:00"
  {
    Fields(7200, 2, 0, 0);
    PadDigit(0);
    PadDigit(2);
  }

  lemma ExampleDay()
    ensures FormatHms(86400) == "24:00:00"
  {
    Fields(86400, 24, 0, 0);
    PadDigit(0);
    assert Decimal(24) == Decimal(2) + [DigitChar(4)];
  }

  /** A negative duration of less than ten seconds (an end just before its start) renders
      with a minus sign in the last field only: Rust's truncating division leaves the other
      fields at zero. */
  lemma NegativeUnderTen(seconds: int)
    requires -10 < seconds < 0
    ensures FormatHms(seconds) == "00:00:" + ['-', DigitChar(-seconds)]
  {
    Fields(seconds, 0, 0, seconds);
    PadDigit(0);
    PadNegativeDigit(-seconds);
    assert ['0', DigitChar(0)] == "00";
  }

  lemma NegativeExample()
    ensures FormatHms(-1) == "00:00:-1"
  {
    NegativeUnderTen(-1);
    assert DigitChar(1) == '1';
  }

  lemma PadNegativeDigit(d: int)
    requires 1 <= d < 10
    ensures Pad2(-d) == ['-', DigitChar(d)]
  {
    assert Decimal(d) == [DigitChar(d)];
  }
}
