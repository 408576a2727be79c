/**
 * The month grid builder: the days of a month widened to whole
 * Monday-to-Sunday weeks and cut into rows of seven, plus the month-name
 * helpers the calendar header uses.
 */
module CalendarHelpers {
  import opened JsText
  import opened Gregorian
  import opened DateFns
  import opened CalendarTypes

  /** The month picker's names, January first. */
  const MONTH_NAMES: seq<string> := [
    "January", "February", "March", "April", "May", "June",
    "July", "August", "September", "October", "November", "December"]

  /** Column headings of the grid, Monday first. */
  const WEEKDAY_NAMES: seq<string> := ["Mon", "Tue", "Wed", "Thu", "Fri", "Sat", "Sun"]

  /**
   * The year and month of `new Date(year, month)`: a year 0..99 means
   * 1900..1999, and a month outside 0..11 carries whole years over.
   */
  function TargetMonth(year: int, month: int): (ym: (int, int))
    ensures 0 <= ym.1 < 12
    ensures 12 * ym.0 + ym.1 == 12 * (if 0 <= year <= 99 then 1900 + year else year) + month
  {
    var fullYear := if 0 <= year <= 99 then 1900 + year else year;
    (fullYear + month / 12, month % 12)
  }

  /** A year of three or more digits and a month 0..11 are taken as they are. */
  lemma TargetMonthPlain(year: int, month: int)
    requires !(0 <= year <= 99) && 0 <= month < 12
    ensures TargetMonth(year, month) == (year, month)
  {
  }

  /** `isSameMonth(a, b)`. */
  predicate IsSameMonth(a: Day, b: Day)
  {
    a.year == b.year && a.month == b.month
  }

  /** `startOfWeek(d, { weekStartsOn: 1 })`: the Monday on or before `d`. */
  function StartOfWeek(d: Day): (s: Day)
    requires IsValid(d)
    ensures IsValid(s) && Weekday(s) == 0
    ensures DayIndex(s) == DayIndex(d) - Weekday(d)
  {
    var day := JsDay(d);
    var diff := (if day < 1 then 7 else 0) + day - 1;
    var w := Weekday(d);
    BackToMonday(w);
    assert diff == w;
    var s := SubDays(d, w);
    WeekdayAfter(d, s, -w);
    assert (w + -w) % 7 == 0;
    s
  }

  /** date-fns' distance back to the week's start, from `getDay()`, is the Monday-first weekday `w`. */
  lemma BackToMonday(w: int)
    requires 0 <= w < 7
    ensures var day := (w + 1) % 7;
      (if day < 1 then 7 else 0) + day - 1 == w
  {
  }

  /** `endOfWeek(d, { weekStartsOn: 1 })`: the Sunday on or after `d`. */
  function EndOfWeek(d: Day): (e: Day)
    requires IsValid(d)
    ensures IsValid(e) && Weekday(e) == 6
    ensures DayIndex(e) == DayIndex(d) + 6 - Weekday(d)
  {
    var day := JsDay(d);
    var diff := (if day < 1 then -7 else 0) + 6 - (day - 1);
    var w := Weekday(d);
    ForwardToSunday(w);
    assert diff == 6 - w;
    var e := AddDays(d, 6 - w);
    WeekdayAfter(d, e, 6 - w);
    assert (w + (6 - w)) % 7 == 6;
    e
  }

  /** date-fns' distance forward to the week's end, from `getDay()`, is six less the Monday-first weekday `w`. */
  lemma ForwardToSunday(w: int)
    requires 0 <= w < 7
    ensures var day := (w + 1) % 7;
      (if day < 1 then -7 else 0) + 6 - (day - 1) == 6 - w
  {
  }

  /** `n` consecutive days starting at `first`. */
  function DaysFrom(first: Day, n: nat): (days: seq<Day>)
    requires IsValid(first)
    ensures |days| == n
    ensures forall i :: 0 <= i < n ==> IsValid(days[i]) && DayIndex(days[i]) == DayIndex(first) + i
    decreases n
  {
    if n == 0 then [] else [first] + DaysFrom(NextDay(first), n - 1)
  }

  /** `eachDayOfInterval({ start, end })`: every day from `start` to `end`, both included, in order. */
  function EachDayOfInterval(start: Day, end: Day): (days: seq<Day>)
    requires IsValid(start) && IsValid(end) && DayIndex(start) <= DayIndex(end)
    ensures |days| == DayIndex(end) - DayIndex(start) + 1
    ensures days[0] == start && days[|days| - 1] == end
    ensures forall i :: 0 <= i < |days| ==> IsValid(days[i]) && DayIndex(days[i]) == DayIndex(start) + i
  {
    var days := DaysFrom(start, DayIndex(end) - DayIndex(start) + 1);
    DayIndexInjective(days[0], start);
    DayIndexInjective(days[|days| - 1], end);
    days
  }

  /** The first day of the month the grid shows. */
  function MonthStart(year: int, month: int): (d: Day)
    ensures IsValid(d) && d.day == 1
    ensures (d.year, d.month) == TargetMonth(year, month)
  {
    var (y, m) := TargetMonth(year, month);
    Day(y, m, 1)
  }

  /** The last day of the month the grid shows. */
  function MonthEnd(year: int, month: int): (d: Day)
    ensures IsValid(d) && IsSameMonth(d, MonthStart(year, month))
    ensures DayIndex(d) == DayIndex(MonthStart(year, month)) + d.day - 1
    ensures d.day == DaysInMonth(d.year, d.month)
  {
    var (y, m) := TargetMonth(year, month);
    Day(y, m, DaysInMonth(y, m))
  }

  /**
   * The cells of `getDaysMatrix(year, month)` before they are cut into weeks
   * (`calendarDays`); `today` stands for the clock reading `isToday` uses.
   */
  function CalendarDays(year: int, month: int, today: Day): (cells: seq<CalendarDay>)
    ensures |cells| > 0
    ensures cells[0].date == StartOfWeek(MonthStart(year, month))
    ensures cells[|cells| - 1].date == EndOfWeek(MonthEnd(year, month))
  {
    var targetDate := MonthStart(year, month);
    var days := EachDayOfInterval(StartOfWeek(targetDate), EndOfWeek(MonthEnd(year, month)));
    seq(|days|, i requires 0 <= i < |days| =>
      CalendarDay(days[i], days[i].day, IsSameMonth(days[i], targetDate), days[i] == today))
  }

  /** Cells before the first of the month: its weekday column, 0 for Monday. */
  function LeadingDays(year: int, month: int): (n: int)
    ensures 0 <= n < 7
  {
    Weekday(MonthStart(year, month))
  }

  /** Every cell holds a valid day, the `i`-th one `i` days after the Monday that opens the grid. */
  lemma CellDays(year: int, month: int, today: Day)
    ensures var cells := CalendarDays(year, month, today);
      var first := MonthStart(year, month);
      && |cells| == LeadingDays(year, month) + first.day - 1 + DaysInMonth(first.year, first.month)
                    + 6 - Weekday(MonthEnd(year, month))
      && forall i :: 0 <= i < |cells| ==>
           && IsValid(cells[i].date)
           && DayIndex(cells[i].date) == DayIndex(first) - LeadingDays(year, month) + i
           && cells[i].dayNumber == cells[i].date.day
           && cells[i].isToday == (cells[i].date == today)
  {
  }

  /** `n` cells make four to six whole weeks. */
  predicate IsWholeWeeks(n: int)
  {
    n % 7 == 0 && 28 <= n <= 42
  }

  /** The grid is four to six whole weeks. */
  lemma GridSize(year: int, month: int, today: Day)
    ensures IsWholeWeeks(|CalendarDays(year, month, today)|)
  {
    CellCount(year, month, today);
    MonthSpansWholeWeeks(year, month);
  }

  /** The leading cells, the month's days and the trailing cells up to Sunday make four to six whole weeks. */
  lemma MonthSpansWholeWeeks(year: int, month: int)
    ensures IsWholeWeeks(GridLength(year, month))
  {
    var first := MonthStart(year, month);
    var lead, dim, w := LeadingDays(year, month), DaysInMonth(first.year, first.month), Weekday(MonthEnd(year, month));
    LastWeekday(year, month);
    WholeWeeks(lead + dim + 6 - w, lead, dim, w);
  }

  /** The last day of the month falls `length - 1` weekday columns after the first. */
  lemma LastWeekday(year: int, month: int)
    ensures var first := MonthStart(year, month);
      Weekday(MonthEnd(year, month)) == (LeadingDays(year, month) + (DaysInMonth(first.year, first.month) - 1)) % 7
  {
    var first, last := MonthStart(year, month), MonthEnd(year, month);
    WeekdayAfter(first, last, DaysInMonth(first.year, first.month) - 1);
  }

  /** The leading days before the first of the month, the month's days, and the trailing days up to Sunday. */
  function GridLength(year: int, month: int): int
  {
    var first := MonthStart(year, month);
    LeadingDays(year, month) + DaysInMonth(first.year, first.month) + 6 - Weekday(MonthEnd(year, month))
  }

  /** The number of cells: the leading ones, the month, and the trailing ones up to Sunday. */
  lemma CellCount(year: int, month: int, today: Day)
    ensures |CalendarDays(year, month, today)| == GridLength(year, month)
  {
    CellDays(year, month, today);
  }

  /** Leading cells, the month, and trailing cells up to Sunday add up to four to six weeks. */
  lemma WholeWeeks(n: int, lead: int, dim: int, lastColumn: int)
    requires 0 <= lead < 7 && 28 <= dim <= 31 && lastColumn == (lead + (dim - 1)) % 7
    requires n == lead + dim + 6 - lastColumn
    ensures n % 7 == 0 && 28 <= n <= 42
  {
  }

  /** The first cell is a Monday, on or at most six days before the first of the month. */
  lemma FirstCellIsMonday(year: int, month: int, today: Day)
    ensures var cells := CalendarDays(year, month, today);
      && |cells| > 0
      && Weekday(cells[0].date) == 0
      && DayIndex(MonthStart(year, month)) - 6 <= DayIndex(cells[0].date) <= DayIndex(MonthStart(year, month))
  {
    GridSize(year, month, today);
  }

  /** The last cell is a Sunday, on or at most six days after the last day of the month. */
  lemma LastCellIsSunday(year: int, month: int, today: Day)
    ensures var cells := CalendarDays(year, month, today);
      && |cells| > 0
      && Weekday(cells[|cells| - 1].date) == 6
      && DayIndex(MonthEnd(year, month)) <= DayIndex(cells[|cells| - 1].date) <= DayIndex(MonthEnd(year, month)) + 6
  {
    GridSize(year, month, today);
  }

  /** Cell `i` falls on weekday `i % 7`, so each column is one weekday and its heading names it. */
  lemma WeekdayColumns(year: int, month: int, today: Day)
    ensures var cells := CalendarDays(year, month, today);
      forall i :: 0 <= i < |cells| ==>
        && Weekday(cells[i].date) == i % 7
        && WEEKDAY_NAMES[i % 7] == ShortDayName(cells[i].date)
  {
    var cells := CalendarDays(year, month, today);
    CellDays(year, month, today);
    FirstCellIsMonday(year, month, today);
    forall i | 0 <= i < |cells|
      ensures Weekday(cells[i].date) == i % 7
      ensures WEEKDAY_NAMES[i % 7] == ShortDayName(cells[i].date)
    {
      assert DayIndex(cells[i].date) == DayIndex(cells[0].date) + i;
      ColumnOfDay(cells[0].date, cells[i].date, i);
    }
  }

  /** A day `i` days after a Monday falls in column `i % 7`, under its own heading. */
  lemma ColumnOfDay(monday: Day, d: Day, i: int)
    requires IsValid(monday) && IsValid(d) && Weekday(monday) == 0 && DayIndex(d) == DayIndex(monday) + i
    ensures Weekday(d) == i % 7 && WEEKDAY_NAMES[i % 7] == ShortDayName(d)
  {
    WeekdayAfter(monday, d, i);
    HeadingNamesWeekday(d);
  }

  /** The heading of weekday column `w` is the en-US abbreviation `EEE` of a day on that weekday. */
  lemma HeadingNamesWeekday(d: Day)
    requires IsValid(d)
    ensures WEEKDAY_NAMES[Weekday(d)] == ShortDayName(d)
  {
    var w := Weekday(d);
    assert ShortDayName(d) == SHORT_DAY_NAMES[(w + 1) % 7];
    HeadingOfColumn(w);
  }

  /** Column `w` of the Monday-first headings is entry `w + 1` (wrapping) of the Sunday-first names. */
  lemma HeadingOfColumn(w: int)
    requires 0 <= w < 7
    ensures WEEKDAY_NAMES[w] == SHORT_DAY_NAMES[(w + 1) % 7]
  {
    if w == 6 {
      assert (w + 1) % 7 == 0;
    } else {
      assert (w + 1) % 7 == w + 1;
    }
  }

  /** Neighbouring cells are consecutive days, and each cell shows its day of the month. */
  lemma ConsecutiveCells(year: int, month: int, today: Day)
    ensures var cells := CalendarDays(year, month, today);
      && (forall i :: 0 <= i < |cells| - 1 ==> IsValid(cells[i].date) && cells[i + 1].date == NextDay(cells[i].date))
      && (forall i :: 0 <= i < |cells| ==> cells[i].dayNumber == cells[i].date.day)
  {
    var cells := CalendarDays(year, month, today);
    CellDays(year, month, today);
    forall i | 0 <= i < |cells| - 1
      ensures IsValid(cells[i].date) && cells[i + 1].date == NextDay(cells[i].date)
    {
      DayIndexInjective(cells[i + 1].date, NextDay(cells[i].date));
    }
  }

  /**
   * The cells flagged as in the month are exactly one run, starting at the
   * first day's weekday column, holding days 1 to the month's length in order.
   */
  lemma CurrentMonthRun(year: int, month: int, today: Day)
    ensures var cells := CalendarDays(year, month, today);
      var first := MonthStart(year, month);
      var lead := LeadingDays(year, month);
      var dim := DaysInMonth(first.year, first.month);
      && lead + dim <= |cells|
      && (forall i :: 0 <= i < |cells| ==> (cells[i].isCurrentMonth <==> lead <= i < lead + dim))
      && (forall i :: lead <= i < lead + dim ==> cells[i].date == Day(first.year, first.month, i - lead + 1))
  {
    var cells := CalendarDays(year, month, today);
    var first := MonthStart(year, month);
    var lead := LeadingDays(year, month);
    var dim := DaysInMonth(first.year, first.month);
    CellDays(year, month, today);
    forall i | lead <= i < lead + dim
      ensures cells[i].date == Day(first.year, first.month, i - lead + 1)
    {
      DayIndexInjective(cells[i].date, Day(first.year, first.month, i - lead + 1));
    }
    forall i | 0 <= i < |cells| && cells[i].isCurrentMonth
      ensures lead <= i < lead + dim
    {
      var d := cells[i].date;
      assert DayIndex(d) == DayIndex(first) + d.day - 1;
    }
  }

  /**
   * A cell is flagged as today exactly when it is the injected day; at most
   * one cell is, and a day of the shown month always has its cell flagged.
   */
  lemma TodayFlag(year: int, month: int, today: Day)
    ensures var cells := CalendarDays(year, month, today);
      && (forall i :: 0 <= i < |cells| ==> (cells[i].isToday <==> cells[i].date == today))
      && (forall i, j :: 0 <= i < |cells| && 0 <= j < |cells| && cells[i].isToday && cells[j].isToday ==> i == j)
      && (IsValid(today) && IsSameMonth(today, MonthStart(year, month)) ==>
            cells[LeadingDays(year, month) + today.day - 1].isToday)
  {
    CellDays(year, month, today);
    CurrentMonthRun(year, month, today);
  }

  /** `getDaysMatrix(year, month)`: the grid's cells cut into weeks of seven, Monday first. */
  method GetDaysMatrix(year: int, month: int, today: Day) returns (matrix: CalendarMatrix)
    ensures 4 <= |matrix| <= 6
    ensures 7 * |matrix| == |CalendarDays(year, month, today)|
    ensures forall r :: 0 <= r < |matrix| ==>
      |matrix[r]| == 7 && matrix[r] == CalendarDays(year, month, today)[7 * r .. 7 * r + 7]
  {
    var calendarDays := CalendarDays(year, month, today);
    GridSize(year, month, today);
    matrix := SplitIntoWeeks(calendarDays);
  }

  /** The loop of `getDaysMatrix` that pushes `calendarDays.slice(i, i + 7)` for `i` = 0, 7, 14, ... */
  method SplitIntoWeeks(calendarDays: seq<CalendarDay>) returns (matrix: CalendarMatrix)
    requires |calendarDays| % 7 == 0
    ensures 7 * |matrix| == |calendarDays|
    ensures forall r :: 0 <= r < |matrix| ==>
      |matrix[r]| == 7 && matrix[r] == calendarDays[7 * r .. 7 * r + 7]
  {
    var weeks := |calendarDays| / 7;
    matrix := [];
    var i := 0;
    while i < |calendarDays|
      invariant i == 7 * |matrix| && |matrix| <= weeks
      invariant forall r :: 0 <= r < |matrix| ==> matrix[r] == calendarDays[7 * r .. 7 * r + 7]
    {
      var end := if i + 7 < |calendarDays| then i + 7 else |calendarDays|;
      matrix := matrix + [calendarDays[i .. end]];
      i := i + 7;
    }
  }

  /** `isCurrentMonth(date, year, month)`: `date` is in the month `new Date(year, month)` falls in. */
  predicate IsCurrentMonth(date: Day, year: int, month: int)
    ensures IsCurrentMonth(date, year, month) <==> (date.year, date.month) == TargetMonth(year, month)
  {
    IsSameMonth(date, MonthStart(year, month))
  }

  /** For a year of three or more digits and a month 0..11 the test is plain equality of year and month. */
  lemma IsCurrentMonthIff(date: Day, year: int, month: int)
    requires !(0 <= year <= 99) && 0 <= month < 12
    ensures IsCurrentMonth(date, year, month) <==> date.year == year && date.month == month
  {
    TargetMonthPlain(year, month);
  }

  /** 15 January 2024 is in January 2024. */
  lemma FifteenthOfJanuaryIsInJanuary()
    ensures IsCurrentMonth(Day(2024, 0, 15), 2024, 0)
  {
    IsCurrentMonthIff(Day(2024, 0, 15), 2024, 0);
  }

  /** The picker's list of names is, entry for entry, what `format` prints for `MMMM`. */
  lemma MonthNamesAgree(month: int)
    requires 0 <= month < 12
    ensures MONTH_NAMES[month] == LongMonthName(month)
  {
  }

  /** `formatMonthYear(year, month)`: `format(new Date(year, month), 'MMMM yyyy')`. */
  function FormatMonthYear(year: int, month: int): (title: string)
    ensures title == MONTH_NAMES[TargetMonth(year, month).1] + " " + YearToken(TargetMonth(year, month).0)
  {
    var first := MonthStart(year, month);
    MonthNamesAgree(first.month);
    LongMonthName(first.month) + " " + YearToken(first.year)
  }

  /** For a four-digit year and a month 0..11 the title is `MONTH_NAMES[month]`, a space, and the year. */
  lemma FormatMonthYearPlain(year: int, month: int)
    requires 1000 <= year <= 9999 && 0 <= month < 12
    ensures FormatMonthYear(year, month) == MONTH_NAMES[month] + " " + Decimal(year)
  {
    TargetMonthPlain(year, month);
    assert Pow10(3) == 1000 && Pow10(4) == 10000;
    DecimalFixedWidth(year, 4);
  }

  /** The heading of January 2024 reads `January 2024`. */
  lemma JanuaryTwentyTwentyFour(year: int, month: int)
    requires year == 2024 && month == 0
    ensures FormatMonthYear(year, month) == "January " + "2024"
  {
    TargetMonthPlain(year, month);
    YearTokenOf2024();
  }
}
