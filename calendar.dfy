/**
 * Calendar dates as the pipeline's Timestamps carry them (midnight, no time
 * zone): proleptic Gregorian (year, month, day) triples with the day number
 * used for every comparison and every difference in days.
 */
module Calendar {

  datatype CalendarDate = CalendarDate(year: int, month: int, day: int)
  {
    predicate Valid() {
      1 <= month <= 12 && 1 <= day <= DaysInMonth(year, month)
    }
  }

  /** A date that exists in the calendar. */
  type Date = d: CalendarDate | d.Valid() witness CalendarDate(1970, 1, 1)

  predicate IsLeapYear(y: int) {
    y % 4 == 0 && (y % 100 != 0 || y % 400 == 0)
  }

  function DaysInMonth(y: int, m: int): (n: int)
    requires 1 <= m <= 12
    ensures 28 <= n <= 31
    ensures n == 29 <==> m == 2 && IsLeapYear(y)
  {
    if m == 2 then (if IsLeapYear(y) then 29 else 28)
    else if m == 4 || m == 6 || m == 9 || m == 11 then 30
    else 31
  }

  function DaysInYear(y: int): int {
    if IsLeapYear(y) then 366 else 365
  }

  /** Days in the years before year `y`, counted from 0001-01-01. */
  function DaysBeforeYear(y: int): int {
    var p := y - 1;
    365 * p + p / 4 - p / 100 + p / 400
  }

  /** Days in the months of year `y` before month `m`. */
  function DaysBeforeMonth(y: int, m: int): int
    requires 1 <= m <= 12
  {
    var common := [0, 31, 59, 90, 120, 151, 181, 212, 243, 273, 304, 334][m - 1];
    if m > 2 && IsLeapYear(y) then common + 1 else common
  }

  /** The day number of a date: 0001-01-01 is day 1. Differences of day
      numbers are the `.days` of a Timestamp difference. */
  function Ordinal(d: Date): int {
    DaysBeforeYear(d.year) + DaysBeforeMonth(d.year, d.month) + d.day
  }

  /** Lexicographic order on (year, month, day). */
  predicate Before(a: Date, b: Date) {
    a.year < b.year
    || (a.year == b.year && (a.month < b.month || (a.month == b.month && a.day < b.day)))
  }

  /** The Timestamp minus a 12-month DateOffset: the same month of the
      previous year, the day clamped to that month's length. */
  function TwelveMonthsEarlier(d: Date): (r: Date)
    ensures r.year == d.year - 1 && r.month == d.month
    ensures r.day == d.day || (d.month == 2 && d.day == 29 && r.day == 28)
    ensures 365 <= Ordinal(d) - Ordinal(r) <= 366
  {
    var dim := DaysInMonth(d.year - 1, d.month);
    var r: Date := CalendarDate(d.year - 1, d.month, if d.day <= dim then d.day else dim);
    YearBackGap(d, r);
    r
  }

  lemma DivStep(y: int)
    ensures y / 4 - (y - 1) / 4 == (if y % 4 == 0 then 1 else 0)
    ensures y / 100 - (y - 1) / 100 == (if y % 100 == 0 then 1 else 0)
    ensures y / 400 - (y - 1) / 400 == (if y % 400 == 0 then 1 else 0)
  {
  }

  /** Consecutive years: the later one starts a year's worth of days on. */
  lemma YearStep(y: int)
    ensures DaysBeforeYear(y + 1) == DaysBeforeYear(y) + DaysInYear(y)
  {
    DivStep(y);
  }

  lemma NotBothLeap(y: int)
    ensures !(IsLeapYear(y) && IsLeapYear(y - 1))
  {
  }

  lemma YearBackGap(d: Date, r: Date)
    requires r.year == d.year - 1 && r.month == d.month
    requires r.day == d.day || (d.month == 2 && d.day == 29 && r.day == 28)
    ensures 365 <= Ordinal(d) - Ordinal(r) <= 366
  {
    YearStep(d.year - 1);
    NotBothLeap(d.year);
  }

  /** A date lies within its own year's span of day numbers. */
  lemma WithinYear(d: Date)
    ensures DaysBeforeYear(d.year) < Ordinal(d) <= DaysBeforeYear(d.year + 1)
  {
    YearStep(d.year);
  }

  lemma {:induction false} YearsIncrease(y1: int, y2: int)
    requires y1 <= y2
    ensures DaysBeforeYear(y1) <= DaysBeforeYear(y2)
    decreases y2 - y1
  {
    if y1 < y2 {
      YearStep(y1);
      YearsIncrease(y1 + 1, y2);
    }
  }

  /** Day numbers order dates exactly as (year, month, day) does, so two
      valid dates with the same day number are the same date. */
  lemma OrdinalOrder(a: Date, b: Date)
    ensures Ordinal(a) < Ordinal(b) <==> Before(a, b)
    ensures Ordinal(a) == Ordinal(b) <==> a == b
  {
    if a.year < b.year {
      WithinYear(a);
      WithinYear(b);
      YearsIncrease(a.year + 1, b.year);
    } else if b.year < a.year {
      WithinYear(a);
      WithinYear(b);
      YearsIncrease(b.year + 1, a.year);
    }
  }
}
