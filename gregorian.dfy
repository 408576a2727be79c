/**
 * The proleptic Gregorian calendar that JavaScript's `Date` and date-fns
 * compute with. A day is written the way a `Date` reports it in local time:
 * full year, month 0..11 (`getMonth()`) and day of month 1..31 (`getDate()`).
 * `DayIndex` numbers the days consecutively (0 is 0000-01-01), which gives
 * the weekday and the "next day" / "previous day" steps.
 */
module Gregorian {

  datatype Day = Day(year: int, month: int, day: int)

  predicate IsLeapYear(year: int)
  {
    year % 4 == 0 && (year % 100 != 0 || year % 400 == 0)
  }

  function DaysInMonth(year: int, month: int): (n: int)
    requires 0 <= month < 12
    ensures 28 <= n <= 31
    ensures month == 1 ==> (n == 29 <==> IsLeapYear(year))
  {
    if month == 1 then (if IsLeapYear(year) then 29 else 28)
    else if month == 3 || month == 5 || month == 8 || month == 10 then 30
    else 31
  }

  /** A day that exists: a month 0..11 and a day within that month's length. */
  predicate IsValid(d: Day)
  {
    0 <= d.month < 12 && 1 <= d.day <= DaysInMonth(d.year, d.month)
  }

  /** Days of `year` before the first of `month`. */
  function DaysBeforeMonth(year: int, month: int): int
    requires 0 <= month < 12
  {
    [0, 31, 59, 90, 120, 151, 181, 212, 243, 273, 304, 334][month]
      + (if month >= 2 && IsLeapYear(year) then 1 else 0)
  }

  /**
   * Days from 0000-01-01 to the first of January of `year` (negative before
   * year 0). The three quotients count the leap years in between; `/` on
   * `int` is floor division for a positive divisor.
   */
  function DaysBeforeYear(year: int): int
  {
    365 * year + (year + 3) / 4 - (year + 99) / 100 + (year + 399) / 400
  }

  function DayIndex(d: Day): int
    requires IsValid(d)
  {
    DaysBeforeYear(d.year) + DaysBeforeMonth(d.year, d.month) + d.day - 1
  }

  /** Day of the week, 0 for Monday through 6 for Sunday (0000-01-01 was a Saturday). */
  function Weekday(d: Day): (w: int)
    requires IsValid(d)
    ensures 0 <= w < 7
  {
    (DayIndex(d) + 5) % 7
  }

  lemma YearLength(year: int)
    ensures DaysBeforeYear(year + 1) == DaysBeforeYear(year) + if IsLeapYear(year) then 366 else 365
  {
    LeapCountStep4(year);
    LeapCountStep100(year);
    LeapCountStep400(year);
    var a := if year % 4 == 0 then 1 else 0;
    var b := if year % 100 == 0 then 1 else 0;
    var c := if year % 400 == 0 then 1 else 0;
    assert DaysBeforeYear(year + 1) == DaysBeforeYear(year) + 365 + a - b + c;
    DivisorChain(year);
  }

  /** A multiple of 400 is a multiple of 100, and a multiple of 100 a multiple of 4. */
  lemma DivisorChain(year: int)
    ensures year % 400 == 0 ==> year % 100 == 0
    ensures year % 100 == 0 ==> year % 4 == 0
  {
    var k, q := year / 400, year / 100;
    assert year == 400 * k + year % 400;
    assert year == 100 * q + year % 100;
  }

  /** The count of multiples of 4 grows by one exactly at a multiple of 4. */
  lemma LeapCountStep4(year: int)
    ensures (year + 4) / 4 == (year + 3) / 4 + (if year % 4 == 0 then 1 else 0)
  {
  }

  /** The count of multiples of 100 grows by one exactly at a multiple of 100. */
  lemma LeapCountStep100(year: int)
    ensures (year + 100) / 100 == (year + 99) / 100 + (if year % 100 == 0 then 1 else 0)
  {
  }

  /** The count of multiples of 400 grows by one exactly at a multiple of 400. */
  lemma LeapCountStep400(year: int)
    ensures (year + 400) / 400 == (year + 399) / 400 + (if year % 400 == 0 then 1 else 0)
  {
  }

  lemma MonthLength(year: int, month: int)
    requires 0 <= month < 11
    ensures DaysBeforeMonth(year, month + 1) == DaysBeforeMonth(year, month) + DaysInMonth(year, month)
  {
  }

  /** The day after `d`: the next day of the month, else the first of the next month or year. */
  function NextDay(d: Day): (e: Day)
    requires IsValid(d)
    ensures IsValid(e) && DayIndex(e) == DayIndex(d) + 1
  {
    if d.day < DaysInMonth(d.year, d.month) then
      Day(d.year, d.month, d.day + 1)
    else if d.month < 11 then
      MonthLength(d.year, d.month);
      Day(d.year, d.month + 1, 1)
    else
      YearLength(d.year);
      Day(d.year + 1, 0, 1)
  }

  /** The day before `d`: the previous day of the month, else the last day of the previous month or year. */
  function PrevDay(d: Day): (e: Day)
    requires IsValid(d)
    ensures IsValid(e) && DayIndex(e) == DayIndex(d) - 1
  {
    if d.day > 1 then
      Day(d.year, d.month, d.day - 1)
    else if d.month > 0 then
      MonthLength(d.year, d.month - 1);
      Day(d.year, d.month - 1, DaysInMonth(d.year, d.month - 1))
    else
      YearLength(d.year - 1);
      Day(d.year - 1, 11, 31)
  }

  /** `addDays(d, k)` for k >= 0. */
  function AddDays(d: Day, k: nat): (e: Day)
    requires IsValid(d)
    ensures IsValid(e) && DayIndex(e) == DayIndex(d) + k
    decreases k
  {
    if k == 0 then d else AddDays(NextDay(d), k - 1)
  }

  /** `subDays(d, k)` for k >= 0. */
  function SubDays(d: Day, k: nat): (e: Day)
    requires IsValid(d)
    ensures IsValid(e) && DayIndex(e) == DayIndex(d) - k
    decreases k
  {
    if k == 0 then d else SubDays(PrevDay(d), k - 1)
  }

  /** Weekdays advance with the day index, modulo 7. */
  lemma WeekdayAfter(a: Day, b: Day, k: int)
    requires IsValid(a) && IsValid(b) && DayIndex(b) == DayIndex(a) + k
    ensures Weekday(b) == (Weekday(a) + k) % 7
  {
    ModSevenShift(DayIndex(a) + 5, k);
  }

  lemma ModSevenShift(x: int, k: int)
    ensures (x + k) % 7 == (x % 7 + k) % 7
  {
  }

  lemma {:induction false} DaysBeforeYearGrows(a: int, b: int)
    requires a <= b
    ensures DaysBeforeYear(a) + 365 * (b - a) <= DaysBeforeYear(b)
    decreases b - a
  {
    if a < b {
      YearLength(a);
      DaysBeforeYearGrows(a + 1, b);
    }
  }

  lemma {:induction false} DaysBeforeMonthGrows(year: int, a: int, b: int)
    requires 0 <= a < b < 12
    ensures DaysBeforeMonth(year, a) + DaysInMonth(year, a) <= DaysBeforeMonth(year, b)
    decreases b - a
  {
    MonthLength(year, a);
    if a + 1 < b {
      DaysBeforeMonthGrows(year, a + 1, b);
    }
  }

  /** A valid day's index lies within its year's range of indices. */
  lemma DayIndexWithinYear(d: Day)
    requires IsValid(d)
    ensures DaysBeforeYear(d.year) <= DayIndex(d) < DaysBeforeYear(d.year + 1)
  {
    YearLength(d.year);
    if d.month < 11 {
      DaysBeforeMonthGrows(d.year, d.month, 11);
    }
  }

  /** Different days have different indices: DayIndex numbers the calendar without gaps or repeats. */
  lemma DayIndexInjective(a: Day, b: Day)
    requires IsValid(a) && IsValid(b) && DayIndex(a) == DayIndex(b)
    ensures a == b
  {
    if a.year < b.year {
      EarlierYearFirst(a, b);
    } else if b.year < a.year {
      EarlierYearFirst(b, a);
    } else if a.month < b.month {
      EarlierMonthFirst(a, b);
    } else if b.month < a.month {
      EarlierMonthFirst(b, a);
    }
  }

  /** A day of an earlier year comes first. */
  lemma EarlierYearFirst(a: Day, b: Day)
    requires IsValid(a) && IsValid(b) && a.year < b.year
    ensures DayIndex(a) < DayIndex(b)
  {
    DayIndexWithinYear(a);
    DayIndexWithinYear(b);
    DaysBeforeYearGrows(a.year + 1, b.year);
  }

  /** A day of an earlier month of the same year comes first. */
  lemma EarlierMonthFirst(a: Day, b: Day)
    requires IsValid(a) && IsValid(b) && a.year == b.year && a.month < b.month
    ensures DayIndex(a) < DayIndex(b)
  {
    DaysBeforeMonthGrows(a.year, a.month, b.month);
  }
}
