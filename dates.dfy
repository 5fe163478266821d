/** Dates and instants. An instant is a count of milliseconds in the clock's time zone;
    a calendar day is an instant truncated to midnight; a civil date is a year, month and
    day, written `YYYY-MM-DD` the way `toISOString().split('T')[0]` writes it. */
module Dates {
  import opened Wrappers
  import opened Text

  const MsPerDay: int := 86_400_000

  /** Seven days, the horizon of "upcoming" (`setDate(getDate() + 7)`). */
  const WeekMs: int := 7 * MsPerDay

  /** The day an instant falls on: `setHours(0, 0, 0, 0)` keeps exactly the instants of
      that day's midnight, so the day number is the instant rounded down to whole days. */
  function DayOf(instant: int): (d: int)
    ensures d * MsPerDay <= instant < d * MsPerDay + MsPerDay
  {
    instant / MsPerDay
  }

  datatype CivilDate = CivilDate(year: int, month: int, day: int)

  predicate IsLeapYear(y: int) {
    (y % 4 == 0 && y % 100 != 0) || y % 400 == 0
  }

  function DaysInMonth(y: int, m: int): (n: int)
    requires 1 <= m <= 12
    ensures 28 <= n <= 31
    ensures n == 29 <==> m == 2 && IsLeapYear(y)
  {
    if m == 2 then (if IsLeapYear(y) then 29 else 28)
    else if m == 4 || m == 6 || m == 9 || m == 11 then 30
    else 31
  }

  /** A date that exists on the proleptic Gregorian calendar. */
  predicate IsValidCivil(d: CivilDate) {
    1 <= d.month <= 12 && 1 <= d.day <= DaysInMonth(d.year, d.month)
  }

  /** `d` comes strictly before `e` in calendar order. */
  predicate Before(d: CivilDate, e: CivilDate) {
    d.year < e.year ||
    (d.year == e.year && (d.month < e.month || (d.month == e.month && d.day < e.day)))
  }

  /** `setDate(getDate() + n)` for a short step: the day of the month overflows into the
      next month, and December into January of the next year. The result is a real date,
      later than `d` when `n > 0`, and at most one year on. */
  function PlusDays(d: CivilDate, n: int): (r: CivilDate)
    requires IsValidCivil(d) && 0 <= n <= 28
    ensures IsValidCivil(r)
    ensures n > 0 ==> Before(d, r)
    ensures n == 0 ==> r == d
    ensures d.year <= r.year <= d.year + 1
  {
    var dim := DaysInMonth(d.year, d.month);
    if d.day + n <= dim then CivilDate(d.year, d.month, d.day + n)
    else if d.month < 12 then CivilDate(d.year, d.month + 1, d.day + n - dim)
    else CivilDate(d.year + 1, 1, d.day + n - dim)
  }

  /** The calendar day after `d`: the next day of the month, the first of the next month,
      or New Year's Day. */
  function NextDay(d: CivilDate): (r: CivilDate)
    requires IsValidCivil(d)
    ensures IsValidCivil(r) && Before(d, r)
  {
    if d.day < DaysInMonth(d.year, d.month) then CivilDate(d.year, d.month, d.day + 1)
    else if d.month < 12 then CivilDate(d.year, d.month + 1, 1)
    else CivilDate(d.year + 1, 1, 1)
  }

  /** `n` calendar days after `d`, one day at a time. */
  function DaysAfter(d: CivilDate, n: nat): (r: CivilDate)
    requires IsValidCivil(d)
    ensures IsValidCivil(r)
  {
    if n == 0 then d else NextDay(DaysAfter(d, n - 1))
  }

  /** The month-overflow arithmetic of `PlusDays` lands exactly `n` days on: it agrees with
      taking `n` single steps to the next day. */
  lemma {:induction false} PlusDaysCountsDays(d: CivilDate, n: nat)
    requires IsValidCivil(d) && n <= 28
    ensures PlusDays(d, n) == DaysAfter(d, n)
  {
    if n > 0 {
      PlusDaysCountsDays(d, n - 1);
      var dim := DaysInMonth(d.year, d.month);
      var p := PlusDays(d, n - 1);
      if d.day + n - 1 < dim {
        assert p == CivilDate(d.year, d.month, d.day + n - 1) && p.day < DaysInMonth(p.year, p.month);
      } else if d.day + n - 1 == dim {
        assert p == CivilDate(d.year, d.month, dim);
      } else if d.month < 12 {
        assert p == CivilDate(d.year, d.month + 1, d.day + n - 1 - dim);
        assert p.day < 28 <= DaysInMonth(p.year, p.month);
      } else {
        assert p == CivilDate(d.year + 1, 1, d.day + n - 1 - dim);
        assert p.day < 28 <= DaysInMonth(p.year, p.month);
      }
    }
  }

  function Pow10(n: nat): (p: nat)
    ensures p >= 1
  {
    if n == 0 then 1 else 10 * Pow10(n - 1)
  }

  /** `v` written with exactly `width` decimal digits, zero-padded on the left. */
  function PadDigits(v: nat, width: nat): (r: string)
    requires v < Pow10(width)
    ensures |r| == width
    ensures forall k :: 0 <= k < |r| ==> IsDigit(r[k])
    ensures DigitsValue(r) == v
  {
    if width == 0 then ""
    else
      assert v / 10 < Pow10(width - 1);
      var r := PadDigits(v / 10, width - 1) + [DigitChar(v % 10)];
      assert r[..|r| - 1] == PadDigits(v / 10, width - 1);
      r
  }

  /** The shape `^\d{4}-\d{2}-\d{2}$`. */
  predicate HasDateShape(s: string) {
    |s| == 10 && s[4] == '-' && s[7] == '-' &&
    IsDigit(s[0]) && IsDigit(s[1]) && IsDigit(s[2]) && IsDigit(s[3]) &&
    IsDigit(s[5]) && IsDigit(s[6]) && IsDigit(s[8]) && IsDigit(s[9])
  }

  /** Reads the year, month and day fields of a date-shaped string. */
  function ParseIso(s: string): CivilDate
    requires HasDateShape(s)
  {
    CivilDate(DigitsValue(s[..4]), DigitsValue(s[5..7]), DigitsValue(s[8..10]))
  }

  /** `isValidDate`: the exact shape, and a real calendar date. */
  predicate IsValidDate(s: string) {
    HasDateShape(s) && IsValidCivil(ParseIso(s))
  }

  /** The `YYYY-MM-DD` form of a date with a four-digit year. */
  function FormatIso(d: CivilDate): (s: string)
    requires IsValidCivil(d) && 0 <= d.year <= 9999
    ensures |s| == 10
  {
    PadDigits(d.year, 4) + "-" + PadDigits(d.month, 2) + "-" + PadDigits(d.day, 2)
  }

  /** Zero-padded writing undoes reading: a string of digits is the padded form of the
      number it denotes. */
  lemma {:induction false} PadDigitsOfValue(x: string)
    requires forall k :: 0 <= k < |x| ==> IsDigit(x[k])
    ensures DigitsValue(x) < Pow10(|x|) && PadDigits(DigitsValue(x), |x|) == x
    decreases |x|
  {
    if |x| > 0 {
      var n := |x|;
      var x0 := x[..n - 1];
      PadDigitsOfValue(x0);
      var v, d := DigitsValue(x), x[n - 1] as int - '0' as int;
      assert v == DigitsValue(x0) * 10 + d && 0 <= d < 10;
      assert v / 10 == DigitsValue(x0) && v % 10 == d;
      assert DigitChar(d) == x[n - 1];
      assert x == x0 + [x[n - 1]];
    }
  }

  /** A date-shaped string is the format of what it parses to. */
  lemma FormatParseIso(s: string)
    requires HasDateShape(s) && IsValidCivil(ParseIso(s))
    ensures 0 <= ParseIso(s).year <= 9999 && FormatIso(ParseIso(s)) == s
  {
    var y, m, d := s[..4], s[5..7], s[8..10];
    var p := ParseIso(s);
    PadDigitsOfValue(y);
    PadDigitsOfValue(m);
    PadDigitsOfValue(d);
    assert Pow10(4) == 10000 by {
      assert Pow10(1) == 10 && Pow10(2) == 100 && Pow10(3) == 1000;
    }
    assert FormatIso(p) == PadDigits(p.year, 4) + "-" + PadDigits(p.month, 2) + "-" + PadDigits(p.day, 2);
    assert FormatIso(p) == y + "-" + m + "-" + d;
    assert s == y + "-" + m + "-" + d;
  }

  /** The strings `isValidDate` accepts are exactly the `YYYY-MM-DD` forms of real dates. */
  lemma IsValidDateIffFormatted(s: string)
    ensures IsValidDate(s) <==> exists d :: IsValidCivil(d) && 0 <= d.year <= 9999 && FormatIso(d) == s
  {
    if IsValidDate(s) {
      FormatParseIso(s);
    }
    if exists d :: IsValidCivil(d) && 0 <= d.year <= 9999 && FormatIso(d) == s {
      var d :| IsValidCivil(d) && 0 <= d.year <= 9999 && FormatIso(d) == s;
      FormatIsoRoundTrip(d);
    }
  }

  /** Formatting is undone by parsing, so a formatted real date always passes `isValidDate`. */
  lemma {:induction false} FormatIsoRoundTrip(d: CivilDate)
    requires IsValidCivil(d) && 0 <= d.year <= 9999
    ensures HasDateShape(FormatIso(d))
    ensures ParseIso(FormatIso(d)) == d
    ensures IsValidDate(FormatIso(d))
  {
    var y, m, dd := PadDigits(d.year, 4), PadDigits(d.month, 2), PadDigits(d.day, 2);
    var s := FormatIso(d);
    assert s == y + "-" + m + "-" + dd;
    assert s[..4] == y;
    assert s[5..7] == m;
    assert s[8..10] == dd;
    assert s[4] == '-' && s[7] == '-';
    assert IsDigit(y[0]) && IsDigit(y[1]) && IsDigit(y[2]) && IsDigit(y[3]);
    assert IsDigit(m[0]) && IsDigit(m[1]) && IsDigit(dd[0]) && IsDigit(dd[1]);
  }

  /** A date-shaped substring starts at offset `i` of `s`. */
  predicate DateAt(s: string, i: int) {
    0 <= i && i + 10 <= |s| && HasDateShape(s[i..i + 10])
  }

  /** The leftmost offset at or after `from` where a date-shaped substring starts. */
  function FirstDateAt(s: string, from: nat): (r: Option<nat>)
    ensures r.Some? ==> from <= r.value && DateAt(s, r.value)
    ensures r.Some? ==> forall j :: from <= j < r.value ==> !DateAt(s, j)
    ensures r.None? ==> forall j :: from <= j ==> !DateAt(s, j)
    decreases |s| - from
  {
    if from + 10 > |s| then None
    else if DateAt(s, from) then Some(from)
    else FirstDateAt(s, from + 1)
  }

  /** `s.match(/(\d{4}-\d{2}-\d{2})/)`: the leftmost date-shaped substring, if any. */
  function DateMatch(s: string): (r: Option<string>)
    ensures r.Some? ==> HasDateShape(r.value)
    ensures r.Some? ==>
      exists i :: DateAt(s, i) && r.value == s[i..i + 10] && forall j :: 0 <= j < i ==> !DateAt(s, j)
    ensures r.None? <==> forall j :: !DateAt(s, j)
  {
    match FirstDateAt(s, 0)
    case Some(i) =>
      assert DateAt(s, i) && forall j :: 0 <= j < i ==> !DateAt(s, j);
      Some(s[i..i + 10])
    case None => None
  }
}
