/**
 * Calendar dates in the proleptic Gregorian calendar, the calendar of
 * Python's `datetime.date`, and the day arithmetic behind a loan's due date
 * (`today + timedelta(days=14)`).
 *
 * `Ordinal` numbers the days the way `date.toordinal` does (0001-01-01 is
 * day 1) from a closed formula; `NextDay` and `AddDays` step through the
 * calendar month by month. The lemmas show that the two agree, so a date
 * reached by `AddDays(d, n)` is exactly the date whose ordinal is
 * `Ordinal(d) + n`.
 */
module Dates {

  datatype Date = Date(year: int, month: int, day: int)

  /** Python's `datetime.MINYEAR` and `datetime.MAXYEAR`. */
  const MIN_YEAR := 1
  const MAX_YEAR := 9999

  predicate IsLeapYear(y: int) {
    y % 4 == 0 && (y % 100 != 0 || y % 400 == 0)
  }

  function DaysInYear(y: int): int {
    if IsLeapYear(y) then 366 else 365
  }

  function DaysInMonth(y: int, m: int): (n: int)
    requires 1 <= m <= 12
    ensures 28 <= n <= 31
    ensures n == 29 <==> m == 2 && IsLeapYear(y)
  {
    if m == 2 then (if IsLeapYear(y) then 29 else 28)
    else if m == 4 || m == 6 || m == 9 || m == 11 then 30
    else 31
  }

  /** A day that exists in the proleptic Gregorian calendar, from year 1 on. */
  predicate Valid(d: Date) {
    MIN_YEAR <= d.year && 1 <= d.month <= 12 && 1 <= d.day <= DaysInMonth(d.year, d.month)
  }

  /** A valid date that Python's `date` type can also hold. */
  predicate Representable(d: Date) {
    Valid(d) && d.year <= MAX_YEAR
  }

  /** Days in the years before `y`, by the closed Gregorian formula. */
  function DaysBeforeYear(y: int): int
    requires MIN_YEAR <= y
  {
    var p := y - 1;
    365 * p + p / 4 - p / 100 + p / 400
  }

  /** Days in year `y` before the first of month `m`, from the fixed month table. */
  function DaysBeforeMonth(y: int, m: int): int
    requires 1 <= m <= 12
  {
    var common :=
      match m
      case 1 => 0
      case 2 => 31
      case 3 => 59
      case 4 => 90
      case 5 => 120
      case 6 => 151
      case 7 => 181
      case 8 => 212
      case 9 => 243
      case 10 => 273
      case 11 => 304
      case 12 => 334;
    common + (if m > 2 && IsLeapYear(y) then 1 else 0)
  }

  /** The day number of `d`, counting 0001-01-01 as day 1. */
  function Ordinal(d: Date): int
    requires Valid(d)
  {
    DaysBeforeYear(d.year) + DaysBeforeMonth(d.year, d.month) + d.day
  }

  /** The calendar day after `d`, rolling over the month and the year. */
  function NextDay(d: Date): (r: Date)
    requires Valid(d)
    ensures Valid(r)
    ensures r.year == d.year || (r.year == d.year + 1 && r.month == 1 && r.day == 1)
  {
    if d.day < DaysInMonth(d.year, d.month) then Date(d.year, d.month, d.day + 1)
    else if d.month < 12 then Date(d.year, d.month + 1, 1)
    else Date(d.year + 1, 1, 1)
  }

  /** The date `n` days after `d`. */
  function AddDays(d: Date, n: nat): (r: Date)
    requires Valid(d)
    ensures Valid(r)
    ensures d.year <= r.year
    decreases n
  {
    if n == 0 then d else AddDays(NextDay(d), n - 1)
  }

  lemma DaysBeforeYearStep(y: int)
    requires MIN_YEAR <= y
    ensures DaysBeforeYear(y + 1) == DaysBeforeYear(y) + DaysInYear(y)
  {
    QuotientStep4(y);
    QuotientStep100(y);
    QuotientStep400(y);
    LeapDivisors(y);
  }

  lemma QuotientStep4(y: int)
    ensures y / 4 == (y - 1) / 4 + (if y % 4 == 0 then 1 else 0)
  {
  }

  lemma QuotientStep100(y: int)
    ensures y / 100 == (y - 1) / 100 + (if y % 100 == 0 then 1 else 0)
  {
  }

  lemma QuotientStep400(y: int)
    ensures y / 400 == (y - 1) / 400 + (if y % 400 == 0 then 1 else 0)
  {
  }

  lemma LeapDivisors(y: int)
    ensures y % 100 == 0 ==> y % 4 == 0
    ensures y % 400 == 0 ==> y % 100 == 0
  {
  }

  lemma DaysBeforeMonthStep(y: int, m: int)
    requires 1 <= m < 12
    ensures DaysBeforeMonth(y, m + 1) == DaysBeforeMonth(y, m) + DaysInMonth(y, m)
  {
  }

  /** December ends the year: its last day is the year's last. */
  lemma DaysBeforeDecember(y: int)
    ensures DaysBeforeMonth(y, 12) + DaysInMonth(y, 12) == DaysInYear(y)
  {
  }

  /** Stepping one calendar day moves the ordinal by exactly one. */
  lemma OrdinalNextDay(d: Date)
    requires Valid(d)
    ensures Ordinal(NextDay(d)) == Ordinal(d) + 1
  {
    if d.day < DaysInMonth(d.year, d.month) {
    } else if d.month < 12 {
      DaysBeforeMonthStep(d.year, d.month);
    } else {
      DaysBeforeYearStep(d.year);
      DaysBeforeDecember(d.year);
    }
  }

  /** Adding `n` days moves the ordinal by exactly `n`. */
  lemma {:induction false} OrdinalAddDays(d: Date, n: nat)
    requires Valid(d)
    ensures Ordinal(AddDays(d, n)) == Ordinal(d) + n
    decreases n
  {
    if n > 0 {
      OrdinalNextDay(d);
      OrdinalAddDays(NextDay(d), n - 1);
    }
  }

  /** Every day of year `y` has an ordinal between the year's first and last day. */
  lemma OrdinalWithinYear(d: Date)
    requires Valid(d)
    ensures DaysBeforeYear(d.year) < Ordinal(d) <= DaysBeforeYear(d.year) + DaysInYear(d.year)
  {
    var m := d.month;
    if m < 12 {
      DaysBeforeMonthStep(d.year, m);
      DaysBeforeMonthBound(d.year, m + 1);
    } else {
      DaysBeforeDecember(d.year);
    }
  }

  lemma DaysBeforeMonthBound(y: int, m: int)
    requires 1 <= m <= 12
    ensures DaysBeforeMonth(y, m) + DaysInMonth(y, m) <= DaysInYear(y)
  {
  }

  lemma {:induction false} DaysBeforeYearMonotone(y1: int, y2: int)
    requires MIN_YEAR <= y1 <= y2
    ensures DaysBeforeYear(y1) + 365 * (y2 - y1) <= DaysBeforeYear(y2)
    decreases y2 - y1
  {
    if y1 < y2 {
      DaysBeforeYearMonotone(y1, y2 - 1);
      DaysBeforeYearStep(y2 - 1);
    }
  }

  /** Within one year, a later month starts no earlier than an earlier month ends. */
  lemma DaysBeforeMonthMonotone(y: int, m1: int, m2: int)
    requires 1 <= m1 < m2 <= 12
    ensures DaysBeforeMonth(y, m1) + DaysInMonth(y, m1) <= DaysBeforeMonth(y, m2)
  {
  }

  /** Dates in calendar order have increasing ordinals. */
  lemma OrdinalIncreasing(d1: Date, d2: Date)
    requires Valid(d1) && Valid(d2)
    requires d1.year < d2.year
          || (d1.year == d2.year && d1.month < d2.month)
          || (d1.year == d2.year && d1.month == d2.month && d1.day < d2.day)
    ensures Ordinal(d1) < Ordinal(d2)
  {
    if d1.year < d2.year {
      OrdinalWithinYear(d1);
      OrdinalWithinYear(d2);
      DaysBeforeYearStep(d1.year);
      DaysBeforeYearMonotone(d1.year + 1, d2.year);
    } else if d1.month < d2.month {
      DaysBeforeMonthMonotone(d1.year, d1.month, d2.month);
    }
  }

  /** Different valid dates have different ordinals. */
  lemma OrdinalInjective(d1: Date, d2: Date)
    requires Valid(d1) && Valid(d2)
    requires Ordinal(d1) == Ordinal(d2)
    ensures d1 == d2
  {
    if d1 != d2 {
      if d1.year < d2.year || (d1.year == d2.year && d1.month < d2.month)
        || (d1.year == d2.year && d1.month == d2.month && d1.day < d2.day) {
        OrdinalIncreasing(d1, d2);
      } else {
        OrdinalIncreasing(d2, d1);
      }
    }
  }

  /**
   * `AddDays(d, n)` is the one and only valid date lying `n` days after `d`:
   * a valid date is `n` days after `d` exactly when it is `AddDays(d, n)`.
   */
  lemma AddDaysCharacterized(d: Date, n: nat, e: Date)
    requires Valid(d) && Valid(e)
    ensures e == AddDays(d, n) <==> Ordinal(e) == Ordinal(d) + n
  {
    OrdinalAddDays(d, n);
    if Ordinal(e) == Ordinal(d) + n {
      OrdinalInjective(e, AddDays(d, n));
    }
  }

  /** A due date within the month. */
  lemma DueDateWithinMonth()
    ensures AddDays(Date(2024, 1, 1), 14) == Date(2024, 1, 15)
  {
    AddDaysCharacterized(Date(2024, 1, 1), 14, Date(2024, 1, 15));
  }

  /** A due date across the leap day of a leap year. */
  lemma DueDateAcrossLeapDay()
    ensures AddDays(Date(2024, 2, 20), 14) == Date(2024, 3, 5)
  {
    AddDaysCharacterized(Date(2024, 2, 20), 14, Date(2024, 3, 5));
  }

  /** A due date across the end of February in a common year. */
  lemma DueDateAcrossCommonFebruary()
    ensures AddDays(Date(2023, 2, 20), 14) == Date(2023, 3, 6)
  {
    AddDaysCharacterized(Date(2023, 2, 20), 14, Date(2023, 3, 6));
  }

  /** A due date across the end of the year. */
  lemma DueDateAcrossYearEnd()
    ensures AddDays(Date(2023, 12, 25), 14) == Date(2024, 1, 8)
  {
    AddDaysCharacterized(Date(2023, 12, 25), 14, Date(2024, 1, 8));
  }
}
