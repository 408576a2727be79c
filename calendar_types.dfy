/** The calendar's records. */
module CalendarTypes {
  import opened Gregorian

  /** The month on display; `currentMonth` is meant to be 0..11 but nothing enforces it. */
  datatype CalendarState = CalendarState(currentYear: int, currentMonth: int)

  /** One cell of the month grid. */
  datatype CalendarDay = CalendarDay(date: Day, dayNumber: int, isCurrentMonth: bool, isToday: bool)

  /** Weeks of cells, Monday first. */
  type CalendarMatrix = seq<seq<CalendarDay>>
}
