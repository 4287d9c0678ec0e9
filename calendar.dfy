/**
 * Calendar timestamps and the month arithmetic of `relativedelta(months=n)`
 * from the dateutil package: move by whole calendar months and clamp the day
 * to the last day of the target month.
 */
module Calendar {

  /** A timestamp of the proleptic Gregorian calendar; `second` is the time of day in seconds. */
  datatype DateTime = DateTime(year: int, month: int, day: int, second: int)

  predicate IsLeapYear(y: int)
  {
    y % 4 == 0 && (y % 100 != 0 || y % 400 == 0)
  }

  function DaysInMonth(y: int, m: int): (n: int)
    requires 1 <= m <= 12
    ensures 28 <= n <= 31
    ensures n == 29 <==> m == 2 && IsLeapYear(y)
  {
    if m == 2 then (if IsLeapYear(y) then 29 else 28)
    else if m == 4 || m == 6 || m == 9 || m == 11 then 30
    else 31
  }

  /** A real calendar date with a time of day. */
  predicate WellFormed(d: DateTime)
  {
    1 <= d.month <= 12 && 1 <= d.day <= DaysInMonth(d.year, d.month) && 0 <= d.second < 86400
  }

  /** Months elapsed since January of year 0. */
  function MonthIndex(d: DateTime): int
  {
    d.year * 12 + d.month - 1
  }

  /** `a < b` on timestamps. */
  predicate Before(a: DateTime, b: DateTime)
  {
    || a.year < b.year
    || (a.year == b.year && a.month < b.month)
    || (a.year == b.year && a.month == b.month && a.day < b.day)
    || (a.year == b.year && a.month == b.month && a.day == b.day && a.second < b.second)
  }

  /**
   * `d + relativedelta(months=n)`: the same time of day, `n` calendar months
   * later (earlier for negative `n`), on the same day of the month or on the
   * last day of the target month when that is shorter.
   */
  function AddMonths(d: DateTime, n: int): (r: DateTime)
    requires WellFormed(d)
    ensures WellFormed(r)
    ensures MonthIndex(r) == MonthIndex(d) + n
    ensures r.second == d.second
    ensures r.day <= d.day
    ensures d.day <= DaysInMonth(r.year, r.month) ==> r.day == d.day
    ensures r.day < d.day ==> r.day == DaysInMonth(r.year, r.month)
  {
    var total := MonthIndex(d) + n;
    var y := total / 12;
    var m := total % 12 + 1;
    var last := DaysInMonth(y, m);
    DateTime(y, m, if d.day <= last then d.day else last, d.second)
  }

  /** Timestamps in an earlier month come first. */
  lemma EarlierMonthIsBefore(a: DateTime, b: DateTime)
    requires WellFormed(a) && WellFormed(b)
    requires MonthIndex(a) < MonthIndex(b)
    ensures Before(a, b)
  {
  }

  /** Adding a positive number of months always yields a strictly later timestamp, even after clamping the day. */
  lemma AddMonthsIsLater(d: DateTime, n: int)
    requires WellFormed(d) && n > 0
    ensures Before(d, AddMonths(d, n))
  {
    EarlierMonthIsBefore(d, AddMonths(d, n));
  }
}
