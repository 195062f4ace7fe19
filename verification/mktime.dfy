/**
 * PHP's `mktime` with the default timezone set to UTC, restricted to what the
 * time calculator asks of it: a year from 1970 on, a month from 1 to 12 and a
 * day from 1 on. Days past the end of a month, and seconds 60 and 61, roll over
 * into the following units, as `mktime` does.
 */
module MkTimeUtc {

  const SECONDS_PER_DAY := 86400

  /** Gregorian leap-year rule on an ordinary (astronomical) year number. */
  predicate IsGregorianLeap(y: int) {
    (y % 4 == 0 && y % 100 != 0) || y % 400 == 0
  }

  function YearLength(y: int): (n: nat)
    ensures n == 365 || n == 366
    ensures n == 366 <==> IsGregorianLeap(y)
  {
    if IsGregorianLeap(y) then 366 else 365
  }

  function MonthLength(m: int, leap: bool): (n: nat)
    requires 1 <= m <= 12
    ensures 28 <= n <= 31
  {
    if m == 2 then (if leap then 29 else 28)
    else if m == 4 || m == 6 || m == 9 || m == 11 then 30
    else 31
  }

  /** Days in the year before the first of month m. */
  function DaysBeforeMonth(m: int, leap: bool): (d: nat)
    requires 1 <= m <= 12
    ensures d <= 335
  {
    var table := [0, 31, 59, 90, 120, 151, 181, 212, 243, 273, 304, 334];
    if leap && m > 2 then table[m - 1] + 1 else table[m - 1]
  }

  /** The cumulative table agrees with the month lengths, and December ends the year. */
  lemma DaysBeforeMonthSteps(leap: bool)
    ensures forall m | 1 <= m < 12 ::
      DaysBeforeMonth(m + 1, leap) == DaysBeforeMonth(m, leap) + MonthLength(m, leap)
    ensures DaysBeforeMonth(1, leap) == 0
    ensures DaysBeforeMonth(12, leap) + MonthLength(12, leap) == if leap then 366 else 365
  {
  }

  lemma {:induction false} DaysBeforeMonthMonotone(m: int, m': int, leap: bool)
    requires 1 <= m <= m' <= 12
    ensures DaysBeforeMonth(m, leap) <= DaysBeforeMonth(m', leap)
    decreases m' - m
  {
    DaysBeforeMonthSteps(leap);
    if m < m' {
      DaysBeforeMonthMonotone(m + 1, m', leap);
    }
  }

  /** Days from 1970-01-01 to the first of January of year y. */
  function DaysFromEpoch(y: int): (d: nat)
    requires y >= 1970
    decreases y
  {
    if y == 1970 then 0 else DaysFromEpoch(y - 1) + YearLength(y - 1)
  }

  /** `mktime(hour, minute, second, month, day, year)` in UTC. */
  function MkTime(hour: nat, minute: nat, second: nat, month: int, day: int, year: int): (t: int)
    requires 1 <= month <= 12 && day >= 1 && year >= 1970
    ensures t >= 0
    ensures t >= DaysFromEpoch(year) * SECONDS_PER_DAY
  {
    (DaysFromEpoch(year) + DaysBeforeMonth(month, IsGregorianLeap(year)) + day - 1) * SECONDS_PER_DAY
      + hour * 3600 + minute * 60 + second
  }

  /** Units past their range roll over: a second past a minute, a day past a month. */
  lemma MkTimeRollsOver(hour: nat, minute: nat, second: nat, month: int, day: int, year: int)
    requires 1 <= month <= 12 && day >= 1 && year >= 1970
    ensures MkTime(hour, minute, second + 60, month, day, year) == MkTime(hour, minute + 1, second, month, day, year)
    ensures MkTime(hour + 24, minute, second, month, day, year) == MkTime(hour, minute, second, month, day + 1, year)
    ensures month < 12 ==>
      MkTime(hour, minute, second, month, day + MonthLength(month, IsGregorianLeap(year)), year)
      == MkTime(hour, minute, second, month + 1, day, year)
  {
    DaysBeforeMonthSteps(IsGregorianLeap(year));
  }

  /** The first of January of the next year follows the last second of the thirty-first of December. */
  lemma MkTimeNewYear(year: int)
    requires year >= 1970
    ensures MkTime(0, 0, 0, 1, 1, year + 1) == MkTime(23, 59, 59, 12, 31, year) + 1
  {
    DaysBeforeMonthSteps(IsGregorianLeap(year));
  }
}
