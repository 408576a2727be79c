/**
 * The month navigation of the calendar view: each handler maps the previous
 * `CalendarState` to the next one, and the year picker lists the years
 * around the clock's year.
 */
module CalendarNavigation {
  import opened Gregorian
  import opened CalendarTypes

  /** The month's position on one running count of months: January of year 0 is 0. */
  function MonthNumber(s: CalendarState): int
  {
    12 * s.currentYear + s.currentMonth
  }

  /** Months 0..11, the range the month picker offers. */
  predicate InRange(s: CalendarState)
  {
    0 <= s.currentMonth < 12
  }

  /**
   * `goPrevMonth`: one month back, January rolling over to December of the
   * year before. From a month in range this is one step back on the running
   * count; a month left below 0 by `setMonth` snaps to December of the year before.
   */
  function GoPrevMonth(prev: CalendarState): (next: CalendarState)
    ensures InRange(prev) ==> InRange(next) && MonthNumber(next) == MonthNumber(prev) - 1
    ensures prev.currentMonth < 1 ==> next == CalendarState(prev.currentYear - 1, 11)
    ensures prev.currentMonth >= 1 ==> next.currentYear == prev.currentYear
  {
    var newMonth := prev.currentMonth - 1;
    if newMonth < 0 then CalendarState(prev.currentYear - 1, 11)
    else prev.(currentMonth := newMonth)
  }

  /**
   * `goNextMonth`: one month forward, December rolling over to January of
   * the next year. From a month in range this is one step forward on the
   * running count; a month left above 11 by `setMonth` snaps to January of the next year.
   */
  function GoNextMonth(prev: CalendarState): (next: CalendarState)
    ensures InRange(prev) ==> InRange(next) && MonthNumber(next) == MonthNumber(prev) + 1
    ensures prev.currentMonth > 10 ==> next == CalendarState(prev.currentYear + 1, 0)
    ensures prev.currentMonth <= 10 ==> next.currentYear == prev.currentYear
  {
    var newMonth := prev.currentMonth + 1;
    if newMonth > 11 then CalendarState(prev.currentYear + 1, 0)
    else prev.(currentMonth := newMonth)
  }

  /** `goToday`: the clock's month, whatever was shown before; `today` stands for the clock reading. */
  function GoToday(prev: CalendarState, today: Day): (next: CalendarState)
    ensures IsValid(today) ==> InRange(next)
    ensures next.currentYear == today.year && next.currentMonth == today.month
  {
    CalendarState(today.year, today.month)
  }

  /** `setMonth(month)`: the month is replaced as given, with no range check; the year stays. */
  function SetMonth(prev: CalendarState, month: int): (next: CalendarState)
    ensures next.currentYear == prev.currentYear && next.currentMonth == month
  {
    prev.(currentMonth := month)
  }

  /** `setYear(year)`: the year is replaced; the month stays. */
  function SetYear(prev: CalendarState, year: int): (next: CalendarState)
    ensures next.currentMonth == prev.currentMonth && next.currentYear == year
  {
    prev.(currentYear := year)
  }

  /** Two states in range on the same running count are the same state. */
  lemma MonthNumberInjective(a: CalendarState, b: CalendarState)
    requires InRange(a) && InRange(b) && MonthNumber(a) == MonthNumber(b)
    ensures a == b
  {
  }

  /** Going back a month and then forward again, or the reverse, returns to the month in range one started from. */
  lemma PrevNextInverse(s: CalendarState)
    requires InRange(s)
    ensures GoNextMonth(GoPrevMonth(s)) == s
    ensures GoPrevMonth(GoNextMonth(s)) == s
  {
    MonthNumberInjective(GoNextMonth(GoPrevMonth(s)), s);
    MonthNumberInjective(GoPrevMonth(GoNextMonth(s)), s);
  }

  /** `n` presses of the next-month button. */
  function NextMonths(s: CalendarState, n: nat): CalendarState
    decreases n
  {
    if n == 0 then s else NextMonths(GoNextMonth(s), n - 1)
  }

  /** `n` presses of the previous-month button. */
  function PrevMonths(s: CalendarState, n: nat): CalendarState
    decreases n
  {
    if n == 0 then s else PrevMonths(GoPrevMonth(s), n - 1)
  }

  /** From a month in range, `n` next-month steps move `n` months forward and stay in range. */
  lemma {:induction false} NextMonthsCount(s: CalendarState, n: nat)
    requires InRange(s)
    ensures InRange(NextMonths(s, n)) && MonthNumber(NextMonths(s, n)) == MonthNumber(s) + n
    decreases n
  {
    if n > 0 {
      NextMonthsCount(GoNextMonth(s), n - 1);
    }
  }

  /** From a month in range, `n` previous-month steps move `n` months back and stay in range. */
  lemma {:induction false} PrevMonthsCount(s: CalendarState, n: nat)
    requires InRange(s)
    ensures InRange(PrevMonths(s, n)) && MonthNumber(PrevMonths(s, n)) == MonthNumber(s) - n
    decreases n
  {
    if n > 0 {
      PrevMonthsCount(GoPrevMonth(s), n - 1);
    }
  }

  /** Twelve steps forward reach the same month of the next year; twelve steps back, of the year before. */
  lemma TwelveStepsChangeTheYear(s: CalendarState)
    requires InRange(s)
    ensures NextMonths(s, 12) == CalendarState(s.currentYear + 1, s.currentMonth)
    ensures PrevMonths(s, 12) == CalendarState(s.currentYear - 1, s.currentMonth)
  {
    NextMonthsCount(s, 12);
    MonthNumberInjective(NextMonths(s, 12), CalendarState(s.currentYear + 1, s.currentMonth));
    PrevMonthsCount(s, 12);
    MonthNumberInjective(PrevMonths(s, 12), CalendarState(s.currentYear - 1, s.currentMonth));
  }

  /** `goToday` does not depend on the state it replaces, so pressing it twice is pressing it once. */
  lemma GoTodayIdempotent(s: CalendarState, t: CalendarState, today: Day)
    ensures GoToday(s, today) == GoToday(t, today)
    ensures GoToday(GoToday(s, today), today) == GoToday(s, today)
  {
  }

  /** The two pickers touch separate fields: they commute, and a second pick of the same field overrides the first. */
  lemma PickersIndependent(s: CalendarState, month: int, year: int, month2: int)
    ensures SetYear(SetMonth(s, month), year) == SetMonth(SetYear(s, year), month)
    ensures SetMonth(SetMonth(s, month), month2) == SetMonth(s, month2)
    ensures SetMonth(s, s.currentMonth) == s && SetYear(s, s.currentYear) == s
  {
  }

  /**
   * `generateYearOptions`: the year picker's entries, built by a loop that
   * pushes every year from `currentYear - 50` to `currentYear + 50`;
   * `currentYear` stands for the clock's year.
   */
  method GenerateYearOptions(currentYear: int) returns (years: seq<int>)
    ensures |years| == 101
    ensures forall i :: 0 <= i < |years| ==> years[i] == currentYear - 50 + i
    ensures forall i, j :: 0 <= i < j < |years| ==> years[i] < years[j]
    ensures forall y :: y in years <==> currentYear - 50 <= y <= currentYear + 50
  {
    years := [];
    var year := currentYear - 50;
    while year <= currentYear + 50
      invariant currentYear - 50 <= year <= currentYear + 51
      invariant |years| == year - (currentYear - 50)
      invariant forall i :: 0 <= i < |years| ==> years[i] == currentYear - 50 + i
    {
      years := years + [year];
      year := year + 1;
    }
    forall y | currentYear - 50 <= y <= currentYear + 50
      ensures y in years
    {
      assert years[y - (currentYear - 50)] == y;
    }
  }
}
