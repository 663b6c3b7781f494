/** Naive local date-times as the bot stores them: the fields of a Python
    `datetime` without time zone, the fixed-width text `datetime.isoformat()`
    writes (extended calendar date and local time of ISO 8601,
    `YYYY-MM-DDTHH:MM:SS` with `.ffffff` appended when the microsecond is
    non-zero), the parser the bot reads it back with, and the exact
    subtraction used for the unfollow grace period. */
module Timestamps {
  import opened Wrappers

  datatype DateTime = DateTime(year: int, month: int, day: int,
                               hour: int, minute: int, second: int, micro: int)

  predicate IsLeapYear(y: int) {
    y % 4 == 0 && (y % 100 != 0 || y % 400 == 0)
  }

  function DaysInMonth(y: int, m: int): (n: int)
    requires 1 <= m <= 12
    ensures 28 <= n <= 31
  {
    if m == 2 then (if IsLeapYear(y) then 29 else 28)
    else if m == 4 || m == 6 || m == 9 || m == 11 then 30
    else 31
  }

  /** The ranges a Python `datetime` enforces on its fields (MINYEAR 1, MAXYEAR 9999). */
  predicate IsValid(d: DateTime) {
    && 1 <= d.year <= 9999
    && 1 <= d.month <= 12
    && 1 <= d.day <= DaysInMonth(d.year, d.month)
    && 0 <= d.hour < 24
    && 0 <= d.minute < 60
    && 0 <= d.second < 60
    && 0 <= d.micro < 1000000
  }

  /** A value a `datetime` object can hold, such as the one `datetime.now()` returns. */
  type Stamp = d: DateTime | IsValid(d) witness DateTime(1, 1, 1, 0, 0, 0, 0)

  // ---------------------------------------------------------------- digits

  function Pow10(n: nat): (p: nat)
    ensures p >= 1
  {
    if n == 0 then 1 else 10 * Pow10(n - 1)
  }

  predicate IsDigit(c: char) {
    '0' <= c <= '9'
  }

  function DigitChar(d: nat): (c: char)
    requires d < 10
    ensures IsDigit(c) && c as int - '0' as int == d
  {
    ('0' as int + d) as char
  }

  /** `n` written in decimal, left-padded with zeros to exactly `width` digits (`%0<width>d`). */
  function Pad(n: nat, width: nat): (s: string)
    requires n < Pow10(width)
    ensures |s| == width
    ensures forall i :: 0 <= i < |s| ==> IsDigit(s[i])
  {
    if width == 0 then ""
    else
      assert n / 10 < Pow10(width - 1);
      Pad(n / 10, width - 1) + [DigitChar(n % 10)]
  }

  /** The value of a run of decimal digits; None when some character is not a digit. */
  function ParseDigits(s: string): (r: Option<nat>)
    ensures r.Some? <==> forall i :: 0 <= i < |s| ==> IsDigit(s[i])
    ensures r.Some? ==> r.value < Pow10(|s|)
  {
    if |s| == 0 then Some(0)
    else
      var last := s[|s| - 1];
      match ParseDigits(s[..|s| - 1])
      case None => None
      case Some(v) =>
        if IsDigit(last) then Some(10 * v + (last as int - '0' as int)) else None
  }

  lemma {:induction false} ParsePad(n: nat, width: nat)
    requires n < Pow10(width)
    ensures ParseDigits(Pad(n, width)) == Some(n)
  {
    if width > 0 {
      var s := Pad(n, width);
      var q, r := n / 10, n % 10;
      assert q < Pow10(width - 1);
      assert s == Pad(q, width - 1) + [DigitChar(r)];
      assert s[..width - 1] == Pad(q, width - 1);
      ParsePad(q, width - 1);
      assert n == 10 * q + r;
    }
  }

  // ------------------------------------------------------------ isoformat

  /** Three zero-padded fields joined by `sep`: the first `width` digits
      wide, the other two 2 digits wide (`YYYY-MM-DD`, `HH:MM:SS`). */
  function Triple(a: nat, width: nat, b: nat, c: nat, sep: char): (s: string)
    requires a < Pow10(width) && b < 100 && c < 100
    ensures |s| == width + 6
  {
    Pad(a, width) + [sep] + Pad(b, 2) + [sep] + Pad(c, 2)
  }

  /** Reads a `Triple` back; None when a separator or a digit is missing. */
  function ParseTriple(s: string, width: nat, sep: char): (r: Option<(nat, nat, nat)>)
    requires |s| == width + 6
    ensures r.Some? ==> s[width] == sep && s[width + 3] == sep
  {
    if s[width] != sep || s[width + 3] != sep then None
    else
      var a, b, c := ParseDigits(s[..width]), ParseDigits(s[width + 1..width + 3]), ParseDigits(s[width + 4..]);
      if a.None? || b.None? || c.None? then None else Some((a.value, b.value, c.value))
  }

  /** Where each field of a `Triple` sits. */
  lemma TripleFields(a: nat, width: nat, b: nat, c: nat, sep: char)
    requires a < Pow10(width) && b < 100 && c < 100
    ensures var s := Triple(a, width, b, c, sep);
      && s[..width] == Pad(a, width) && s[width] == sep
      && s[width + 1..width + 3] == Pad(b, 2) && s[width + 3] == sep
      && s[width + 4..] == Pad(c, 2)
  {
    var s := Triple(a, width, b, c, sep);
    assert s[..width] == Pad(a, width);
    assert s[width + 1..width + 3] == Pad(b, 2);
    assert s[width + 4..] == Pad(c, 2);
  }

  lemma TripleRoundTrip(a: nat, width: nat, b: nat, c: nat, sep: char)
    requires a < Pow10(width) && b < 100 && c < 100
    ensures ParseTriple(Triple(a, width, b, c, sep), width, sep) == Some((a, b, c))
  {
    TripleFields(a, width, b, c, sep);
    ParsePad(a, width);
    ParsePad(b, 2);
    ParsePad(c, 2);
  }

  function DateText(d: Stamp): (s: string)
    ensures |s| == 10
  {
    Triple(d.year, 4, d.month, d.day, '-')
  }

  function TimeText(d: Stamp): (s: string)
    ensures |s| == 8
  {
    Triple(d.hour, 2, d.minute, d.second, ':')
  }

  /** The fraction `isoformat` appends: nothing for a whole second, else
      `.` and six digits. */
  function FracText(d: Stamp): (s: string)
    ensures |s| == if d.micro == 0 then 0 else 7
  {
    if d.micro == 0 then "" else "." + Pad(d.micro, 6)
  }

  /** `datetime.isoformat()` of a naive date-time. */
  function Format(d: Stamp): (s: string)
    ensures |s| == if d.micro == 0 then 19 else 26
    ensures s[10] == 'T'
  {
    DateText(d) + "T" + TimeText(d) + FracText(d)
  }

  /** `datetime.fromisoformat` restricted to the two shapes `isoformat` writes
      for a naive value; the character between date and time may be any, as
      that parser allows. Anything else, and any field out of range, fails. */
  function Parse(s: string): (r: Option<Stamp>)
    ensures r.Some? ==> |s| == 19 || |s| == 26
  {
    if !(|s| == 19 || (|s| == 26 && s[19] == '.')) then None
    else
      var date, time := ParseTriple(s[..10], 4, '-'), ParseTriple(s[11..19], 2, ':');
      var us := if |s| == 26 then ParseDigits(s[20..]) else Some(0);
      if date.None? || time.None? || us.None? then None
      else
        var d := DateTime(date.value.0, date.value.1, date.value.2,
                          time.value.0, time.value.1, time.value.2, us.value);
        if IsValid(d) then Some(d) else None
  }

  /** Reading back what `isoformat` wrote gives the same date-time: nothing,
      microseconds included, is lost by the round trip through the file. */
  lemma ParseFormat(d: Stamp)
    ensures Parse(Format(d)) == Some(d)
  {
    FormatFields(d);
    TripleRoundTrip(d.year, 4, d.month, d.day, '-');
    TripleRoundTrip(d.hour, 2, d.minute, d.second, ':');
    if d.micro != 0 {
      ParsePad(d.micro, 6);
    }
  }

  /** Where each part of `isoformat`'s text sits. */
  lemma FormatFields(d: Stamp)
    ensures var s := Format(d);
      && s[..10] == DateText(d) && s[11..19] == TimeText(d)
      && (d.micro != 0 ==> s[19] == '.' && s[20..] == Pad(d.micro, 6))
  {
    var s := Format(d);
    assert s[..10] == DateText(d);
    assert s[11..19] == TimeText(d);
    if d.micro != 0 {
      assert s[20..] == Pad(d.micro, 6);
    }
  }

  // ----------------------------------------------------------- arithmetic

  function DaysInYear(y: int): int {
    if IsLeapYear(y) then 366 else 365
  }

  /** Days in the years before year `y`, counted year by year. */
  function DaysBeforeYear(y: int): int
    requires y >= 1
  {
    if y == 1 then 0 else DaysBeforeYear(y - 1) + DaysInYear(y - 1)
  }

  /** The year-by-year count is the closed form Python's `datetime` uses
      (`_days_before_year`): 365 days a year plus one per leap year. */
  lemma {:induction false} DaysBeforeYearFormula(y: int)
    requires y >= 1
    ensures var p := y - 1; DaysBeforeYear(y) == p * 365 + p / 4 - p / 100 + p / 400
  {
    if y > 1 {
      DaysBeforeYearFormula(y - 1);
      FormulaStep(y - 2);
    }
  }

  /** Python's closed form grows by the length of each year. */
  lemma FormulaStep(q: nat)
    ensures (q + 1) * 365 + (q + 1) / 4 - (q + 1) / 100 + (q + 1) / 400
            == q * 365 + q / 4 - q / 100 + q / 400 + DaysInYear(q + 1)
  {
    Div4Step(q);
    Div100Step(q);
    Div400Step(q);
  }

  lemma Div4Step(q: nat)
    ensures (q + 1) / 4 == q / 4 + (if (q + 1) % 4 == 0 then 1 else 0)
  {
  }

  lemma Div100Step(q: nat)
    ensures (q + 1) / 100 == q / 100 + (if (q + 1) % 100 == 0 then 1 else 0)
  {
  }

  lemma Div400Step(q: nat)
    ensures (q + 1) / 400 == q / 400 + (if (q + 1) % 400 == 0 then 1 else 0)
  {
  }

  function DaysBeforeMonth(y: int, m: int): int
    requires 1 <= m <= 12
  {
    if m == 1 then 0 else DaysBeforeMonth(y, m - 1) + DaysInMonth(y, m - 1)
  }

  /** Day number in the proleptic Gregorian calendar, 0001-01-01 being day 1 (`date.toordinal`). */
  function Ordinal(d: Stamp): int {
    DaysBeforeYear(d.year) + DaysBeforeMonth(d.year, d.month) + d.day
  }

  /** Microseconds since 0001-01-01T00:00:00; the difference of two of these
      is the exact `timedelta` Python computes for `a - b`. The time of day
      adds less than a day (86400000000 microseconds) to the start of the
      date's day. */
  function Micros(d: Stamp): (r: int)
    ensures Ordinal(d) * 86400000000 <= r < (Ordinal(d) + 1) * 86400000000
  {
    (((Ordinal(d) * 24 + d.hour) * 60 + d.minute) * 60 + d.second) * 1000000 + d.micro
  }

  /** `timedelta(days=2)` in microseconds. */
  const GracePeriod: int := 2 * 24 * 60 * 60 * 1000000

  /** `(now - followedAt) >= timedelta(days=2)`. */
  predicate OldEnough(followedAt: Stamp, now: Stamp) {
    Micros(now) - Micros(followedAt) >= GracePeriod
  }

  /** By calendar days: a follow three or more dates back is always old
      enough, one made on the previous date or later never is, and a follow
      two dates back is old enough exactly when its time of day is not later
      than the current one. */
  lemma OldEnoughByDays(followedAt: Stamp, now: Stamp)
    ensures Ordinal(now) >= Ordinal(followedAt) + 3 ==> OldEnough(followedAt, now)
    ensures Ordinal(now) <= Ordinal(followedAt) + 1 ==> !OldEnough(followedAt, now)
    ensures Ordinal(now) == Ordinal(followedAt) + 2 ==>
      (OldEnough(followedAt, now) <==>
         Micros(followedAt) - Ordinal(followedAt) * 86400000000 <= Micros(now) - Ordinal(now) * 86400000000)
  {
  }
}
