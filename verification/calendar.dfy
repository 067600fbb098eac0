/** Proleptic Gregorian dates as Python's `datetime` module handles them: the
    ordinal day number of `date.toordinal()`, `strftime("%Y-%m-%d")` and
    `strptime(s, "%Y-%m-%d")`. */
module Calendar {
  import opened Outcomes
  import opened Text

  datatype Date = Date(year: int, month: int, day: int)

  predicate IsLeapYear(y: int) {
    y % 4 == 0 && (y % 100 != 0 || y % 400 == 0)
  }

  function DaysInMonth(y: int, m: int): (n: int)
    requires 1 <= m <= 12
    ensures 28 <= n <= 31
  {
    if m == 2 then (if IsLeapYear(y) then 29 else 28)
    else if m == 4 || m == 6 || m == 9 || m == 11 then 30
    else 31
  }

  function DaysInYear(y: int): int {
    if IsLeapYear(y) then 366 else 365
  }

  /** What the `datetime.date` constructor accepts; anything else raises ValueError. */
  predicate ValidDate(d: Date) {
    1 <= d.year <= 9999 && 1 <= d.month <= 12 && 1 <= d.day <= DaysInMonth(d.year, d.month)
  }

  /** Days in all the years before year `y` (Python's `_days_before_year`). */
  function DaysBeforeYear(y: int): (n: int)
    requires y >= 1
  {
    var p := y - 1;
    p * 365 + p / 4 - p / 100 + p / 400
  }

  /** Days in the months of year `y` before month `m` (Python's `_days_before_month`). */
  function DaysBeforeMonth(y: int, m: int): int
    requires 1 <= m <= 12
  {
    (match m
     case 1 => 0 case 2 => 31 case 3 => 59 case 4 => 90 case 5 => 120 case 6 => 151
     case 7 => 181 case 8 => 212 case 9 => 243 case 10 => 273 case 11 => 304 case _ => 334)
    + (if m > 2 && IsLeapYear(y) then 1 else 0)
  }

  /** Python's `date.toordinal()`: 1 January of year 1 is day 1. */
  function Ordinal(d: Date): (n: int)
    requires ValidDate(d)
    ensures DaysBeforeYear(d.year) < n <= DaysBeforeYear(d.year) + DaysInYear(d.year)
    ensures DaysBeforeYear(d.year) >= 0
    ensures n == 1 <==> d == Date(1, 1, 1)
  {
    MonthsFillYear(d.year, d.month);
    DaysBeforeLaterYear(d.year);
    DaysBeforeYear(d.year) + DaysBeforeMonth(d.year, d.month) + d.day
  }

  /** Calendar order: `a` is an earlier date than `b`. */
  predicate Before(a: Date, b: Date) {
    a.year < b.year
    || (a.year == b.year && a.month < b.month)
    || (a.year == b.year && a.month == b.month && a.day < b.day)
  }

  /** The date after `d` (for the last day of 9999, a date past the range). */
  function NextDay(d: Date): Date
    requires ValidDate(d)
  {
    if d.day < DaysInMonth(d.year, d.month) then Date(d.year, d.month, d.day + 1)
    else if d.month < 12 then Date(d.year, d.month + 1, 1)
    else Date(d.year + 1, 1, 1)
  }

  lemma DaysBeforeYearStep(y: int)
    requires y >= 1
    ensures DaysBeforeYear(y + 1) == DaysBeforeYear(y) + DaysInYear(y)
  {
    var p := y - 1;
    assert y / 4 == p / 4 + (if y % 4 == 0 then 1 else 0);
    assert y / 100 == p / 100 + (if y % 100 == 0 then 1 else 0);
    assert y / 400 == p / 400 + (if y % 400 == 0 then 1 else 0);
  }

  /** The days before a later year include all of an earlier year. */
  lemma {:induction false} DaysBeforeYearGrows(a: int, b: int)
    requires 1 <= a < b
    ensures DaysBeforeYear(a) + DaysInYear(a) <= DaysBeforeYear(b)
    decreases b - a
  {
    DaysBeforeYearStep(a);
    if a + 1 < b {
      DaysBeforeYearGrows(a + 1, b);
    }
  }

  /** No days come before year 1, and a whole year before any later one. */
  lemma DaysBeforeLaterYear(y: int)
    requires y >= 1
    ensures DaysBeforeYear(y) >= 0
    ensures y > 1 ==> DaysBeforeYear(y) >= 365
  {
    var p := y - 1;
    assert p / 4 >= p / 100;
  }

  lemma DaysBeforeMonthGrows(y: int, a: int, b: int)
    requires 1 <= a < b <= 12
    ensures DaysBeforeMonth(y, a) + DaysInMonth(y, a) <= DaysBeforeMonth(y, b)
  {
  }

  lemma MonthsFillYear(y: int, m: int)
    requires 1 <= m <= 12
    ensures DaysBeforeMonth(y, m) + DaysInMonth(y, m) <= DaysInYear(y)
  {
  }

  /** `toordinal()` follows the calendar: an earlier date has a smaller ordinal. */
  lemma OrdinalIncreasing(a: Date, b: Date)
    requires ValidDate(a) && ValidDate(b)
    requires Before(a, b)
    ensures Ordinal(a) < Ordinal(b)
  {
    if a.year < b.year {
      MonthsFillYear(a.year, a.month);
      DaysBeforeYearGrows(a.year, b.year);
    } else if a.month < b.month {
      DaysBeforeMonthGrows(a.year, a.month, b.month);
    }
  }

  /** Ordinals order dates exactly as the calendar does, and name each date once. */
  lemma OrdinalOrder(a: Date, b: Date)
    requires ValidDate(a) && ValidDate(b)
    ensures Ordinal(a) < Ordinal(b) <==> Before(a, b)
    ensures Ordinal(a) == Ordinal(b) <==> a == b
  {
    if Before(a, b) {
      OrdinalIncreasing(a, b);
    } else if Before(b, a) {
      OrdinalIncreasing(b, a);
    }
  }

  /** Consecutive dates have consecutive ordinals. */
  lemma OrdinalNextDay(d: Date)
    requires ValidDate(d) && d.year < 9999
    ensures ValidDate(NextDay(d))
    ensures Ordinal(NextDay(d)) == Ordinal(d) + 1
  {
    if d.day == DaysInMonth(d.year, d.month) && d.month == 12 {
      DaysBeforeYearStep(d.year);
    }
  }

  // ---------------------------------------------------------------------------
  // strftime("%Y-%m-%d")

  /** Two zero-padded digits (`%m`, `%d`). */
  function Pad2(n: nat): (s: string)
    requires n < 100
    ensures |s| == 2 && AllDigits(s) && DecimalValue(s) == n
  {
    var a, b := DigitChar(n / 10), DigitChar(n % 10);
    DecimalValueAppend([], a);
    DecimalValueAppend([a], b);
    assert [] + [a] == [a] && [a] + [b] == [a, b];
    [a, b]
  }

  /** Four zero-padded digits (`%Y`). */
  function Pad4(n: nat): (s: string)
    requires n < 10000
    ensures |s| == 4 && AllDigits(s) && DecimalValue(s) == n
  {
    var high, low := Pad2(n / 100), Pad2(n % 100);
    DecimalValueAppend(high, low[0]);
    DecimalValueAppend(high + [low[0]], low[1]);
    assert high + [low[0]] + [low[1]] == high + low;
    assert low[..1] == [low[0]];
    high + low
  }

  /** `date.strftime("%Y-%m-%d")`. */
  function FormatIso(d: Date): (s: string)
    requires ValidDate(d)
    ensures |s| == 10 && s[4] == '-' && s[7] == '-'
    ensures AllDigits(s[..4]) && AllDigits(s[5..7]) && AllDigits(s[8..])
  {
    var s := Pad4(d.year) + "-" + Pad2(d.month) + "-" + Pad2(d.day);
    assert s[..4] == Pad4(d.year) && s[5..7] == Pad2(d.month) && s[8..] == Pad2(d.day);
    s
  }

  // ---------------------------------------------------------------------------
  // strptime(s, "%Y-%m-%d")

  /** A numeric `strptime` directive matched against the whole text `t`: one
      digit no smaller than `lo`, or two digits from `lo` to `hi`. With (1, 12)
      this is `%m` (`1[0-2]|0[1-9]|[1-9]`), with (0, 23) `%H`, with (0, 59) `%M`
      and with (0, 61) `%S`. */
  function NumberField(t: string, lo: nat, hi: nat): (r: Option<nat>)
    requires 9 <= hi
    ensures r.Some? ==> lo <= r.value <= hi
    ensures r.Some? ==> 1 <= |t| <= 2 && AllDigits(t) && r.value == DecimalValue(t)
  {
    if |t| == 1 && IsDigit(t[0]) && lo <= DigitValue(t[0]) then
      assert t[..0] == [];
      Some(DigitValue(t[0]))
    else if |t| == 2 && AllDigits(t) && lo <= DecimalValue(t) <= hi then Some(DecimalValue(t))
    else None
  }

  /** `%d` (`3[01]|[12]\d|0[1-9]|[1-9]| [1-9]`) matched against the whole text `t`. */
  function DayField(t: string): (r: Option<nat>)
    ensures r.Some? ==> 1 <= r.value <= 31
  {
    if |t| == 2 && t[0] == ' ' && '1' <= t[1] <= '9' then Some(DigitValue(t[1]))
    else NumberField(t, 1, 31)
  }

  /** `datetime.strptime(s, "%Y-%m-%d")` reduced to its date, `None` where it
      raises ValueError: four digits, a dash, a month field, a dash and a day
      field that runs to the end of `s`, naming a date that exists. */
  function ParseIso(s: string): (r: Option<Date>)
    ensures r.Some? ==> ValidDate(r.value)
  {
    if |s| < 5 || !AllDigits(s[..4]) || s[4] != '-' || '-' !in s[5..] then None
    else
      var rest := s[5..];
      var k := IndexOf(rest, '-');
      match (NumberField(rest[..k], 1, 12), DayField(rest[k + 1..]))
      case (Some(m), Some(d)) =>
        var date := Date(DecimalValue(s[..4]), m, d);
        if ValidDate(date) then Some(date) else None
      case _ => None
  }

  /** Parsing what `strftime("%Y-%m-%d")` wrote gives back the same date. */
  lemma ParseFormatIso(d: Date)
    requires ValidDate(d)
    ensures ParseIso(FormatIso(d)) == Some(d)
  {
    var s := FormatIso(d);
    var rest := s[5..];
    assert rest == Pad2(d.month) + "-" + Pad2(d.day);
    assert rest[2] == '-' && '-' !in rest[..2];
    assert IndexOf(rest, '-') == 2;
    assert rest[..2] == Pad2(d.month) && rest[3..] == Pad2(d.day);
    assert s[..4] == Pad4(d.year);
  }

  /** A date string in the form `strftime` writes: the canonical text of the date
      it parses to. */
  predicate IsIsoDate(s: string) {
    ParseIso(s).Some? && FormatIso(ParseIso(s).value) == s
  }

  lemma FormatIsIsoDate(d: Date)
    requires ValidDate(d)
    ensures IsIsoDate(FormatIso(d))
  {
    ParseFormatIso(d);
  }
}
