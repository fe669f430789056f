/**
  The part of chrono's `NaiveDate` the program relies on: which (year, month, day)
  triples are dates, how two dates compare, and how many whole days lie between them
  (`date - today`). Dates are proleptic Gregorian, as in chrono.
*/
module Calendar {

  /** chrono's representable year range (`MIN_YEAR` and `MAX_YEAR`). */
  const MinYear := -262144
  const MaxYear := 262143

  datatype Date = Date(year: int, month: int, day: int)

  predicate IsLeapYear(y: int) {
    y % 4 == 0 && (y % 100 != 0 || y % 400 == 0)
  }

  function DaysInMonth(y: int, m: int): (n: int)
    requires 1 <= m <= 12
    ensures 28 <= n <= 31
    ensures n == 29 <==> m == 2 && IsLeapYear(y)
  {
    if m == 2 then (if IsLeapYear(y) then 29 else 28)
    else if m == 4 || m == 6 || m == 9 || m == 11 then 30
    else 31
  }

  /** The triples chrono accepts as a date (`from_ymd_opt` returns `Some`). */
  predicate IsValid(d: Date) {
    MinYear <= d.year <= MaxYear && 1 <= d.month <= 12 && 1 <= d.day <= DaysInMonth(d.year, d.month)
  }

  /** A chrono date: a triple that exists in the calendar. */
  type NaiveDate = d: Date | IsValid(d) witness Date(1970, 1, 1)

  function YearLength(y: int): int {
    if IsLeapYear(y) then 366 else 365
  }

  /** Days from 0001-01-01 to the first of January of year `y`. */
  function DaysBeforeYear(y: int): int {
    365 * (y - 1) + (y - 1) / 4 - (y - 1) / 100 + (y - 1) / 400
  }

  /** Days from the first of January of year `y` to the first day of month `m` (13 is the next year). */
  function DaysBeforeMonth(y: int, m: int): int
    requires 1 <= m <= 13
  {
    [0, 31, 59, 90, 120, 151, 181, 212, 243, 273, 304, 334, 365][m - 1]
      + (if m > 2 && IsLeapYear(y) then 1 else 0)
  }

  /** Days from 0001-01-01 to `d` (chrono's `num_days_from_ce() - 1`). */
  function DayNumber(d: NaiveDate): int {
    DaysBeforeYear(d.year) + DaysBeforeMonth(d.year, d.month) + d.day - 1
  }

  /** The whole days of `to - from`, chrono's subtraction of two dates. */
  function DaysBetween(from: NaiveDate, to: NaiveDate): int {
    DayNumber(to) - DayNumber(from)
  }

  /** chrono's ordering of dates: earlier year, then earlier month, then earlier day. */
  predicate NotAfter(a: Date, b: Date) {
    a.year < b.year
    || (a.year == b.year && a.month < b.month)
    || (a.year == b.year && a.month == b.month && a.day <= b.day)
  }

  lemma YearStep(y: int)
    ensures DaysBeforeYear(y + 1) == DaysBeforeYear(y) + YearLength(y)
  {
    var q4, q100, q400 := (y - 1) / 4, (y - 1) / 100, (y - 1) / 400;
    assert y / 4 == (if y % 4 == 0 then q4 + 1 else q4);
    assert y / 100 == (if y % 100 == 0 then q100 + 1 else q100);
    assert y / 400 == (if y % 400 == 0 then q400 + 1 else q400);
    assert y % 400 == 0 ==> y % 100 == 0 && y % 4 == 0;
    assert y % 100 == 0 ==> y % 4 == 0;
  }

  lemma {:induction false} DaysBeforeYearGrows(y1: int, y2: int)
    requires y1 < y2
    ensures DaysBeforeYear(y1) + YearLength(y1) <= DaysBeforeYear(y2)
    decreases y2 - y1
  {
    YearStep(y1);
    if y1 + 1 < y2 {
      DaysBeforeYearGrows(y1 + 1, y2);
    }
  }

  lemma DayNumberWithinYear(d: NaiveDate)
    ensures DaysBeforeYear(d.year) <= DayNumber(d) < DaysBeforeYear(d.year) + YearLength(d.year)
  {
  }

  /** Comparing day numbers is comparing dates: the order chrono sorts by agrees with the day count. */
  lemma DayNumberOrder(a: NaiveDate, b: NaiveDate)
    ensures NotAfter(a, b) <==> DayNumber(a) <= DayNumber(b)
    ensures a == b <==> DayNumber(a) == DayNumber(b)
  {
    DayNumberWithinYear(a);
    DayNumberWithinYear(b);
    if a.year < b.year {
      DaysBeforeYearGrows(a.year, b.year);
    } else if b.year < a.year {
      DaysBeforeYearGrows(b.year, a.year);
    }
  }

  /** `to - from` is never negative exactly when `from` does not come after `to`. */
  lemma DaysBetweenSign(from: NaiveDate, to: NaiveDate)
    ensures DaysBetween(from, to) >= 0 <==> NotAfter(from, to)
    ensures DaysBetween(from, to) == 0 <==> from == to
  {
    DayNumberOrder(from, to);
  }

  lemma UnixEpoch()
    ensures DayNumber(Date(1970, 1, 1)) == 719162
  {
  }
}
