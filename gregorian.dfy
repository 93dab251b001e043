/**
 * The two calendar facts the calendar sheet asks JavaScript's Date for:
 * the length of a month (`new Date(year, month + 1, 0).getDate()`) and the
 * weekday of its first day (`new Date(year, month, 1).getDay()`), on the
 * proleptic Gregorian calendar that Date uses.
 */
module Gregorian {
  import opened Arith

  /** Date's two-digit-year rule: a year argument 0..99 means 1900..1999. */
  function JsYear(year: int): (y: int)
    ensures 0 <= year <= 99 ==> y == 1900 + year
    ensures (year < 0 || year > 99) ==> y == year
  {
    if 0 <= year <= 99 then 1900 + year else year
  }

  predicate IsLeap(y: int) {
    (y % 4 == 0 && y % 100 != 0) || y % 400 == 0
  }

  /** Length of month m (0 = January) of year y. */
  function DaysInMonth(y: int, m: int): (d: nat)
    requires 0 <= m < 12
    ensures 28 <= d <= 31
    ensures m == 1 ==> (d == 29 <==> IsLeap(y))
  {
    if m == 1 then (if IsLeap(y) then 29 else 28)
    else if m == 3 || m == 5 || m == 8 || m == 10 then 30
    else 31
  }

  /** Days in the months of y before month m, by the usual cumulative table. */
  function DaysBeforeMonth(y: int, m: int): nat
    requires 0 <= m <= 12
  {
    [0, 31, 59, 90, 120, 151, 181, 212, 243, 273, 304, 334, 365][m] + (if m >= 2 && IsLeap(y) then 1 else 0)
  }

  /** The cumulative table is the running sum of the month lengths. */
  lemma DaysBeforeMonthStep(y: int, m: int)
    requires 0 <= m < 12
    ensures DaysBeforeMonth(y, m + 1) == DaysBeforeMonth(y, m) + DaysInMonth(y, m)
  {
  }

  /**
   * Days from 1 January of year 1 to 1 January of year y, counted with the
   * leap-year rule (floor division: Dafny's `/` by a positive constant).
   */
  function DaysBeforeYear(y: int): int {
    365 * (y - 1) + LeapsBefore(y)
  }

  /** Leap years among 1 .. y - 1 (or minus those among y .. 0 for y < 1). */
  function LeapsBefore(y: int): int {
    (y - 1) / 4 - (y - 1) / 100 + (y - 1) / 400
  }

  /** Day number of (y, m, d), 0 being 1 January of year 1. */
  function DayNumber(y: int, m: int, d: int): int
    requires 0 <= m < 12
  {
    DaysBeforeYear(y) + DaysBeforeMonth(y, m) + d - 1
  }

  /** getDay: 0 = Sunday ... 6 = Saturday; 1 January of year 1 was a Monday. */
  function Weekday(y: int, m: int, d: int): (w: nat)
    requires 0 <= m < 12
    ensures w < 7
  {
    (DayNumber(y, m, d) + 1) % 7
  }

  /** daysInMonth of the calendar builder. */
  function MonthLength(year: int, month: int): (d: nat)
    requires 0 <= month < 12
    ensures 28 <= d <= 31
  {
    DaysInMonth(JsYear(year), month)
  }

  /** startDay of the calendar builder. */
  function FirstWeekday(year: int, month: int): (w: nat)
    requires 0 <= month < 12
    ensures w < 7
  {
    Weekday(JsYear(year), month, 1)
  }

  /** The twelve month lengths add up to the year length the closed form counts. */
  lemma YearLength(y: int)
    ensures DaysBeforeMonth(y, 12) == if IsLeap(y) then 366 else 365
    ensures DaysBeforeYear(y + 1) == DaysBeforeYear(y) + DaysBeforeMonth(y, 12)
  {
    LeapsStep(y);
  }

  /** Passing year y adds one to the leap count exactly when y is a leap year. */
  lemma LeapsStep(y: int)
    ensures LeapsBefore(y + 1) == LeapsBefore(y) + if IsLeap(y) then 1 else 0
  {
    LeapDivisions(y);
    LeapNesting(y);
  }

  /** A multiple of 400 is a multiple of 100, and a multiple of 100 a multiple of 4. */
  lemma LeapNesting(y: int)
    ensures y % 400 == 0 ==> y % 100 == 0
    ensures y % 100 == 0 ==> y % 4 == 0
  {
    if y % 400 == 0 {
      DivModUnique(y, 100, 4 * (y / 400), 0);
    }
    if y % 100 == 0 {
      DivModUnique(y, 4, 25 * (y / 100), 0);
    }
  }

  lemma ModShift(a: int, b: int)
    ensures (a + b) % 7 == (a % 7 + b) % 7
  {
    assert a == 7 * (a / 7) + a % 7;
    assert a + b == 7 * (a / 7) + (a % 7 + b);
  }

  /** The floor quotients the closed form uses step exactly at multiples. */
  lemma LeapDivisions(y: int)
    ensures y / 4 - (y - 1) / 4 == if y % 4 == 0 then 1 else 0
    ensures y / 100 - (y - 1) / 100 == if y % 100 == 0 then 1 else 0
    ensures y / 400 - (y - 1) / 400 == if y % 400 == 0 then 1 else 0
  {
  }

  /** The first of the next month falls DaysInMonth days later in the week. */
  lemma NextMonthWeekday(y: int, m: int)
    requires 0 <= m < 11
    ensures Weekday(y, m + 1, 1) == (Weekday(y, m, 1) + DaysInMonth(y, m)) % 7
  {
    DaysBeforeMonthStep(y, m);
    ModShift(DayNumber(y, m, 1) + 1, DaysInMonth(y, m));
  }

  /** ... and likewise across the turn of the year. */
  lemma NextYearWeekday(y: int)
    ensures Weekday(y + 1, 0, 1) == (Weekday(y, 11, 1) + DaysInMonth(y, 11)) % 7
  {
    YearLength(y);
    DaysBeforeMonthStep(y, 11);
    ModShift(DayNumber(y, 11, 1) + 1, DaysInMonth(y, 11));
  }

  /** `new Date(year, 12, 0)`: day 0 of the month after December is 31 December of the same year. */
  lemma DecemberLength(year: int)
    ensures MonthLength(year, 11) == 31
  {
  }

  /** February 2024: 29 days, the 1st a Thursday. */
  lemma February2024()
    ensures MonthLength(2024, 1) == 29 && FirstWeekday(2024, 1) == 4
  {
  }
}
