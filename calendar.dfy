/**
 * Proleptic Gregorian arithmetic in the way Python's `datetime` module does it:
 * `date.toordinal()` numbers days from 0001-01-01 (day 1), and the difference of
 * two datetimes is the difference of their ordinals and their seconds of the day.
 * Instants are counted in seconds (or microseconds) since 0001-01-01T00:00:00.
 */
module Calendar {

  /** A date and time of day, as a naive `datetime` without microseconds. */
  datatype CivilTime = CivilTime(year: int, month: int, day: int, hour: int, minute: int, second: int)

  const SecondsPerDay: int := 86400

  predicate IsLeapYear(year: int) {
    year % 4 == 0 && (year % 100 != 0 || year % 400 == 0)
  }

  function DaysInYear(year: int): int {
    if IsLeapYear(year) then 366 else 365
  }

  function DaysInMonth(year: int, month: int): int
    requires 1 <= month <= 12
  {
    if month == 2 then (if IsLeapYear(year) then 29 else 28)
    else if month == 4 || month == 6 || month == 9 || month == 11 then 30
    else 31
  }

  /** Days in the months of a common year before the first of each month (index 1..12). */
  const DaysBeforeMonthTable: seq<int> := [0, 0, 31, 59, 90, 120, 151, 181, 212, 243, 273, 304, 334]

  function DaysBeforeMonth(year: int, month: int): int
    requires 1 <= month <= 12
  {
    DaysBeforeMonthTable[month] + (if month > 2 && IsLeapYear(year) then 1 else 0)
  }

  /** Days in the years from year 1 up to, not including, `year`. */
  function DaysBeforeYear(year: int): int
    decreases year
  {
    if year <= 1 then 0 else DaysBeforeYear(year - 1) + DaysInYear(year - 1)
  }

  /** The fields `datetime(year, month, day, hour, minute, second)` accepts. */
  predicate Valid(t: CivilTime) {
    1 <= t.year <= 9999 && 1 <= t.month <= 12 && 1 <= t.day <= DaysInMonth(t.year, t.month)
    && 0 <= t.hour <= 23 && 0 <= t.minute <= 59 && 0 <= t.second <= 59
  }

  /** `date.toordinal()`: 0001-01-01 is day 1. */
  function Ordinal(t: CivilTime): int
    requires 1 <= t.month <= 12
  {
    DaysBeforeYear(t.year) + DaysBeforeMonth(t.year, t.month) + t.day
  }

  function SecondOfDay(t: CivilTime): int {
    t.hour * 3600 + t.minute * 60 + t.second
  }

  /** Seconds from 0001-01-01T00:00:00 to `t`. */
  function ToSeconds(t: CivilTime): int
    requires Valid(t)
  {
    (Ordinal(t) - 1) * SecondsPerDay + SecondOfDay(t)
  }

  /** Chronological order of civil times: lexicographic on the fields. */
  predicate Before(a: CivilTime, b: CivilTime) {
    a.year < b.year
    || (a.year == b.year && a.month < b.month)
    || (a.year == b.year && a.month == b.month && a.day < b.day)
    || (a.year == b.year && a.month == b.month && a.day == b.day && SecondOfDay(a) < SecondOfDay(b))
  }

  /** Floor division by a positive constant goes up by one exactly at its multiples. */
  lemma DivisionStep(n: int, k: int)
    requires k == 4 || k == 100 || k == 400
    ensures n / k - (n - 1) / k == (if n % k == 0 then 1 else 0)
  {
    var q, r := (n - 1) / k, (n - 1) % k;
    assert n - 1 == k * q + r && 0 <= r < k;
    if r == k - 1 {
      assert n == k * (q + 1);
    } else {
      assert n == k * q + (r + 1);
    }
  }

  /** The count agrees with the closed formula `_days_before_year` of Python's `datetime`. */
  lemma {:induction false} DaysBeforeYearFormula(year: int)
    requires 1 <= year
    ensures var y := year - 1; DaysBeforeYear(year) == y * 365 + y / 4 - y / 100 + y / 400
    decreases year
  {
    if year > 1 {
      DaysBeforeYearFormula(year - 1);
      DivisionStep(year - 1, 4);
      DivisionStep(year - 1, 100);
      DivisionStep(year - 1, 400);
    }
  }

  lemma {:induction false} DaysBeforeYearMonotone(a: int, b: int)
    requires 1 <= a <= b
    ensures DaysBeforeYear(a) + 365 * (b - a) <= DaysBeforeYear(b)
    decreases b - a
  {
    if a < b {
      DaysBeforeYearMonotone(a, b - 1);
    }
  }

  lemma DaysBeforeMonthStep(year: int, month: int)
    requires 1 <= month < 12
    ensures DaysBeforeMonth(year, month + 1) == DaysBeforeMonth(year, month) + DaysInMonth(year, month)
  {
  }

  lemma {:induction false} DaysBeforeMonthMonotone(year: int, m1: int, m2: int)
    requires 1 <= m1 < m2 <= 12
    ensures DaysBeforeMonth(year, m1) + DaysInMonth(year, m1) <= DaysBeforeMonth(year, m2)
    decreases m2 - m1
  {
    DaysBeforeMonthStep(year, m1);
    if m1 + 1 < m2 {
      DaysBeforeMonthMonotone(year, m1 + 1, m2);
    }
  }

  /** A valid date's day lies within its year. */
  lemma DayWithinYear(t: CivilTime)
    requires Valid(t)
    ensures 1 <= DaysBeforeMonth(t.year, t.month) + t.day <= DaysInYear(t.year)
  {
    if t.month < 12 {
      DaysBeforeMonthMonotone(t.year, t.month, 12);
    }
  }

  /** Every valid civil time is at or after the epoch 0001-01-01T00:00:00. */
  lemma ToSecondsNonNegative(t: CivilTime)
    requires Valid(t)
    ensures 0 <= ToSeconds(t)
  {
    DaysBeforeYearFormula(t.year);
  }

  /** Later civil times are later instants: the ordinal arithmetic respects the calendar. */
  lemma ToSecondsStrictlyIncreasing(a: CivilTime, b: CivilTime)
    requires Valid(a) && Valid(b) && Before(a, b)
    ensures ToSeconds(a) < ToSeconds(b)
  {
    assert Ordinal(a) < Ordinal(b) || (Ordinal(a) == Ordinal(b) && SecondOfDay(a) < SecondOfDay(b)) by {
      if a.year < b.year {
        DayWithinYear(a);
        DaysBeforeYearMonotone(a.year + 1, b.year);
      } else if a.year == b.year && a.month < b.month {
        DaysBeforeMonthMonotone(a.year, a.month, b.month);
      }
    }
  }

  /** Distinct valid civil times denote distinct instants. */
  lemma ToSecondsInjective(a: CivilTime, b: CivilTime)
    requires Valid(a) && Valid(b) && ToSeconds(a) == ToSeconds(b)
    ensures a == b
  {
    if Before(a, b) {
      ToSecondsStrictlyIncreasing(a, b);
    } else if Before(b, a) {
      ToSecondsStrictlyIncreasing(b, a);
    } else {
      assert SecondOfDay(a) == SecondOfDay(b);
    }
  }
}
