/** Wall-clock instants as the booking screen sees them: a calendar day (what
    `format("YYYY-MM-DD")` shows), a minute of that day (what `format("HH:mm")`
    shows) and the milliseconds into that minute, which `format` drops but
    `isBefore` compares. Days are numbered consecutively, so "today plus n
    days" is `today + n`; calendar and time-zone arithmetic is not modelled. */
module Clock {
  import opened Wrappers

  const MinutesPerDay: int := 1440
  const MillisPerMinute: int := 60000

  /** A minute of the day, 00:00 .. 23:59. */
  type Minute = m: int | 0 <= m < MinutesPerDay

  /** Milliseconds into a minute (seconds and milliseconds together). */
  type Millis = n: int | 0 <= n < MillisPerMinute

  /** A local wall-clock instant, to the millisecond. */
  datatype Stamp = Stamp(day: int, minute: Minute, millis: Millis)

  /** Milliseconds since the start of day 0: the scale on which instants
      compare. */
  function Instant(s: Stamp): int
  {
    (s.day * MinutesPerDay + s.minute) * MillisPerMinute + s.millis
  }

  /** `a.isBefore(b)`: strictly earlier, to the millisecond. */
  predicate Before(a: Stamp, b: Stamp)
  {
    Instant(a) < Instant(b)
  }

  /** Comparing instants is comparing (day, minute, millis) lexicographically. */
  lemma BeforeIsLexicographic(a: Stamp, b: Stamp)
    ensures Before(a, b) <==>
      a.day < b.day
      || (a.day == b.day && a.minute < b.minute)
      || (a.day == b.day && a.minute == b.minute && a.millis < b.millis)
  {
  }

  // ---- the "HH:mm" text of a minute --------------------------------------

  predicate IsDigit(c: char)
  {
    '0' <= c <= '9'
  }

  function DigitChar(d: int): (c: char)
    requires 0 <= d < 10
    ensures IsDigit(c) && DigitValue(c) == d
  {
    (48 + d) as char
  }

  function DigitValue(c: char): (d: int)
    requires IsDigit(c)
    ensures 0 <= d < 10
  {
    c as int - 48
  }

  /** `format("HH:mm")`: two-digit hour, a colon, two-digit minute. */
  function FormatHHmm(m: Minute): (s: string)
    ensures |s| == 5 && s[2] == ':'
    ensures IsDigit(s[0]) && IsDigit(s[1]) && IsDigit(s[3]) && IsDigit(s[4])
  {
    var h := m / 60;
    var mm := m % 60;
    [DigitChar(h / 10), DigitChar(h % 10), ':', DigitChar(mm / 10), DigitChar(mm % 10)]
  }

  /** Reading an "HH:mm" text back into a minute of the day; `None` for any
      text that is not two digits, a colon and two digits naming 00:00 .. 23:59. */
  function ParseHHmm(s: string): (r: Option<Minute>)
    ensures r.Some? ==> FormatHHmm(r.value) == s
  {
    if |s| == 5 && IsDigit(s[0]) && IsDigit(s[1]) && s[2] == ':' && IsDigit(s[3]) && IsDigit(s[4]) then
      var h := 10 * DigitValue(s[0]) + DigitValue(s[1]);
      var mm := 10 * DigitValue(s[3]) + DigitValue(s[4]);
      if h < 24 && mm < 60 then
        var m := 60 * h + mm;
        assert m / 60 == h && m % 60 == mm;
        assert FormatHHmm(m)[0] == s[0] && FormatHHmm(m)[1] == s[1];
        assert FormatHHmm(m)[3] == s[3] && FormatHHmm(m)[4] == s[4];
        Some(m)
      else None
    else None
  }

  /** A text that names a minute of the day. */
  predicate WellFormedTime(s: string)
  {
    ParseHHmm(s).Some?
  }

  /** Formatting then parsing gives the minute back. */
  lemma ParseFormat(m: Minute)
    ensures ParseHHmm(FormatHHmm(m)) == Some(m)
  {
  }

  /** Two different minutes never show the same "HH:mm" text, so comparing the
      texts (as the screen does with `===`) is comparing the minutes. */
  lemma FormatInjective(m1: Minute, m2: Minute)
    ensures FormatHHmm(m1) == FormatHHmm(m2) <==> m1 == m2
  {
  }
}
