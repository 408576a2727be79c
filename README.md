# Calendar and notes, modelled in Dafny

The application is a month calendar with a notes panel. The calendar shows
one month as a grid of whole weeks, Monday first. It has buttons for the
previous month, the next month and today, plus month and year pickers.
Clicking a day reports that day's date key, `yyyy-MM-dd`, to an optional
`onDateClick` callback.

The notes panel and the notes store are components of the repository that
the application does not mount: `App.tsx` renders only the top bar and the
calendar, and passes no `onDateClick`. The model covers them as written.
The panel lists the notes of one date, newest update first, each with a
one-line preview. Notes are created empty and edited in a text area whose
changes are committed after a debounce delay. A note is deleted only after a
confirmation. The store keeps `notesByDate`, a map from date key to a list of
notes, together with the selected date, the selected note and the panel's
visibility. Once mounted, the store would be written to browser storage and,
at start-up, read back through a validator that drops malformed notes.

The model has one Dafny module per source file:

- `DateHelpers` covers `src/utils/dateHelpers.ts`. It is built on
  `Gregorian`, a proleptic Gregorian calendar, and on `DateFns`, the
  `format` tokens the source uses.
- `CalendarHelpers` and `CalendarNavigation` cover `src/utils/calendarHelpers.ts`
  and the handlers of `src/components/Calendar.tsx`.
- `NotesStore` covers the actions of `src/hooks/useNotesState.ts`.
- `NotesStorage` covers `src/utils/notesStorage.ts`: the loader works on
  parsed JSON values, and the id generator's random draws are an input.
- `NotesPanel` covers the logic of `src/components/NotesPanel.tsx`. A class
  holds the panel's own state and the store it dispatches to.
- `JsText` provides the JavaScript string operations the source relies on:
  `toString`, `padStart`, `trim`, `split('\n')[0]` and hex digits.
- `NotesTypes` and `CalendarTypes` hold the records of `src/types`.

These readings of the source are fixed by the model:

- Dates are values `Day(year, month, day)` with a 0-based month, as `Date#getMonth` numbers months.
- The clock's reading ("today", "now", the current year) is a parameter.
- Timestamps stay the strings the source stores. `new Date(s).getTime()` is an
  injected function `timeOf`.
- The sort comparator's ties keep list order, as `Array#sort` is stable.
- The loader never stores a date named `__proto__`: assigning that key to a plain
  object calls the inherited prototype setter and adds no own key.
- `updateNote` edits only the first note carrying the id on each date, because the
  code uses `findIndex`. An id that is unique in the store (the normal case)
  therefore edits exactly one note. A store that holds duplicate ids on one date
  edits only the first of them, because `findIndex` stops at the first match.

## Model

| member | source | states |
|---|---|---|
| DateFns.YearToken | src/utils/dateHelpers.ts:5 | the `yyyy` token of a year from 1 to 9999 is that year written in exactly four digits |
| DateFns.TwoDigitToken | src/utils/dateHelpers.ts:5 | the `MM`/`dd` tokens of a number below 100 are that number written in exactly two digits |
| DateFns.JsDay | src/utils/dateHelpers.ts:14 | `getDay` (0 = Sunday) of a valid day is in 0..6 |
| JsText.PadStartDecimal | src/utils/dateHelpers.ts:5 | padding the decimal form of `n` with zeros to a width it fits in gives the fixed-width digits of `n` |
| JsText.FixedDigitsValue | src/utils/dateHelpers.ts:5 | the fixed-width digits of `n` read back as `n` when `n` fits the width |
| JsText.FixedDigitsOfValue | src/utils/dateHelpers.ts:9 | a run of digits is the fixed-width rendering of its own value, so parsing then printing is the identity |
| JsText.DecimalInjective | src/utils/notesStorage.ts:33 | different array indices have different `Object.entries` keys |
| JsText.Trim | src/components/NotesPanel.tsx:92 | the result is a slice of the input with only white space cut from each side, and it neither starts nor ends with white space |
| JsText.TrimEmptyIffBlank | src/components/NotesPanel.tsx:92 | `content.trim()` is empty exactly when every character is white space |
| JsText.TrimStart | src/components/NotesPanel.tsx:92 | the result is a suffix of the input, it does not start with white space, and the part removed is all white space |
| JsText.TrimEnd | src/components/NotesPanel.tsx:92 | the result is a prefix of the input, it does not end with white space, and the part removed is all white space |
| JsText.FirstLine | src/components/NotesPanel.tsx:93 | `split('\n')[0]` is a prefix with no line feed that ends at the first line feed or at the end |
| Gregorian.NextDay | src/utils/calendarHelpers.ts:19-22 | the next calendar day is a valid day exactly one day later on the day count |
| Gregorian.DayIndexInjective | src/utils/calendarHelpers.ts:19-22 | two valid days with the same day count are the same day |
| Gregorian.EarlierYearFirst | src/utils/calendarHelpers.ts:19-22 | a day of an earlier year has a smaller day count |
| Gregorian.EarlierMonthFirst | src/utils/calendarHelpers.ts:19-22 | a day of an earlier month of the same year has a smaller day count |
| Gregorian.WeekdayAfter | src/utils/calendarHelpers.ts:16-17 | `k` days later the weekday has moved on by `k` modulo 7 |
| DateHelpers.DateKeyToDate | src/utils/dateHelpers.ts:8-10 | a key that parses yields a valid day with a four-digit year, and only a key of the `yyyy-MM-dd` shape parses |
| DateHelpers.FormatDateForDisplay | src/utils/dateHelpers.ts:12-15 | the display text exists exactly when the key parses |
| DateHelpers.DateToDateKey | src/utils/dateHelpers.ts:4-6 | for years 1..9999 the key has the `yyyy-MM-dd` shape and its three digit groups read back as the year, the 1-based month and the day |
| DateHelpers.DateKeyShape | src/utils/dateHelpers.ts:4-6 | the key of a day in years 1..9999 has the `yyyy-MM-dd` shape, and its three digit groups are the year zero-padded to four digits and the 1-based month and the day zero-padded to two, reading back as those numbers |
| DateHelpers.DateKeyRoundTrip | src/utils/dateHelpers.ts:4-10 | parsing the key of a day in years 1..9999 gives that day back |
| DateHelpers.DateKeyCanonical | src/utils/dateHelpers.ts:4-10 | a key that parses to a year from 1 on is the key of the day it parses to |
| DateHelpers.DateKeyInjective | src/utils/dateHelpers.ts:4-6 | two days in years 1..9999 with the same key are the same day |
| DateHelpers.EraYearKeysCollide | src/utils/dateHelpers.ts:5 | the era year of `yyyy` writes a year `y <= 0` as `1 - y`, so a day before year 1 shares its key with the same day of year `1 - y` (year 0 with year 1) |
| DateHelpers.DisplayEndsWithKey | src/utils/dateHelpers.ts:12-15 | the display text is the short weekday name, a comma and space, then the key itself (per calendar day; time zones are left out) |
| DateHelpers.SecondOfJanuary2024Key | src/utils/dateHelpers.test.ts:5-11 | 2 January 2024 has key `2024-01-02`, and that key parses back to the same day |
| DateHelpers.SecondOfJanuary2024Display | src/utils/dateHelpers.test.ts:13-16 | a key naming 2 January 2024, such as `2024-01-02`, displays as `Tue, ` followed by the key (per calendar day; west of UTC the engine shows the previous day) |
| CalendarHelpers.TargetMonth | src/utils/calendarHelpers.ts:12 | `new Date(year, month)` lands on a month in range on the same running month count, with years 0..99 read as 1900..1999 |
| CalendarHelpers.TargetMonthPlain | src/utils/calendarHelpers.ts:12 | outside years 0..99 and with a month in range, the target is that year and month unchanged |
| CalendarHelpers.StartOfWeek | src/utils/calendarHelpers.ts:16 | the start of the week is a Monday on or up to six days before the day |
| CalendarHelpers.EndOfWeek | src/utils/calendarHelpers.ts:17 | the end of the week is a Sunday on or up to six days after the day |
| CalendarHelpers.EachDayOfInterval | src/utils/calendarHelpers.ts:19-22 | the interval lists every day from start to end inclusive, one day apart, starting with start and ending with end |
| CalendarHelpers.MonthStart | src/utils/calendarHelpers.ts:12-13 | the start of the month is the valid first day of the year and month `new Date(year, month)` lands on |
| CalendarHelpers.MonthEnd | src/utils/calendarHelpers.ts:14 | the end of the month is the last day of the same month, its length less one day after the start |
| CalendarHelpers.LeadingDays | src/utils/calendarHelpers.ts:16 | the previous month shows 0 to 6 days before the first |
| CalendarHelpers.CalendarDays | src/utils/calendarHelpers.ts:11-29 | the cells run from the Monday on or before the month's first day to the Sunday on or after its last day (CellDays, ConsecutiveCells and CurrentMonthRun describe the cells between) |
| CalendarHelpers.CellDays | src/utils/calendarHelpers.ts:24-29 | every cell holds a valid day, cell `i` is `i` days after the opening Monday, and its day number and today flag describe that date |
| CalendarHelpers.GridSize | src/utils/calendarHelpers.ts:11-37 | the grid has between 28 and 42 cells, a whole number of weeks |
| CalendarHelpers.CellCount | src/utils/calendarHelpers.ts:11-29 | the grid holds the leading days of the week before the first, the whole month, and the days up to the Sunday after the last |
| CalendarHelpers.LastWeekday | src/utils/calendarHelpers.ts:13-14 | the last day of the month lies `length - 1` weekday columns after the first |
| CalendarHelpers.FirstCellIsMonday | src/utils/calendarHelpers.ts:16 | the first cell is a Monday at most six days before the first of the month |
| CalendarHelpers.LastCellIsSunday | src/utils/calendarHelpers.ts:17 | the last cell is a Sunday at most six days after the last of the month |
| CalendarHelpers.WeekdayColumns | src/utils/calendarHelpers.ts:9 | cell `i` falls on weekday `i mod 7`, and the `WEEKDAY_NAMES` heading of its column is its own short day name |
| CalendarHelpers.HeadingNamesWeekday | src/utils/calendarHelpers.ts:9 | the heading at a day's Monday-first weekday is the name date-fns gives that day |
| CalendarHelpers.ConsecutiveCells | src/utils/calendarHelpers.ts:19-22 | each cell's date is the day after the previous cell's |
| CalendarHelpers.CurrentMonthRun | src/utils/calendarHelpers.ts:24-29 | a cell is flagged as in the month exactly when it lies in the run of the month's days, which hold days 1 to the month's length in order |
| CalendarHelpers.TodayFlag | src/utils/calendarHelpers.ts:28 | a cell is flagged today exactly when its date is today; at most one cell is; a today in the shown month is always flagged |
| CalendarHelpers.GetDaysMatrix | src/utils/calendarHelpers.ts:11-37 | the matrix has 4 to 6 rows, each row seven cells, and row `r` is cells `7r` to `7r+6` of the grid |
| CalendarHelpers.SplitIntoWeeks | src/utils/calendarHelpers.ts:31-34 | cutting a list of whole weeks gives one row per week, row `r` being the `r`-th run of seven |
| CalendarHelpers.IsCurrentMonth | src/utils/calendarHelpers.ts:39-41 | a date is in the current month exactly when its year and month are the ones `new Date(year, month)` lands on |
| CalendarHelpers.IsCurrentMonthIff | src/utils/calendarHelpers.ts:39-41 | outside years 0..99 a date is in the month exactly when its year and month are the given ones |
| CalendarHelpers.FifteenthOfJanuaryIsInJanuary | src/utils/calendarHelpers.test.ts:17 | 15 January 2024 is in January 2024 |
| CalendarHelpers.MonthNamesAgree | src/utils/calendarHelpers.ts:4-7 | each entry of the picker's `MONTH_NAMES` list is the name `format` prints for that month with `MMMM` |
| CalendarHelpers.FormatMonthYear | src/utils/calendarHelpers.ts:51-53 | the heading is the `MONTH_NAMES` entry of the month `new Date(year, month)` lands on, a space, and that year's `yyyy` token |
| CalendarHelpers.FormatMonthYearPlain | src/utils/calendarHelpers.ts:51-53 | for a four-digit year the heading is the month's `MONTH_NAMES` entry, a space and the year |
| CalendarHelpers.JanuaryTwentyTwentyFour | src/utils/calendarHelpers.test.ts:13 | January 2024 reads `January 2024` |
| CalendarNavigation.GoPrevMonth | src/components/Calendar.tsx:20-28 | from a month in range the result is in range and one month earlier; January and any month below it roll to December of the year before; otherwise the year stays |
| CalendarNavigation.GoNextMonth | src/components/Calendar.tsx:30-38 | from a month in range the result is in range and one month later; December and any month above it roll to January of the next year; otherwise the year stays |
| CalendarNavigation.GoToday | src/components/Calendar.tsx:40-43 | the result is today's year and month, in range for a valid day |
| CalendarNavigation.SetMonth | src/components/Calendar.tsx:45-47 | only the month changes, to the given value unchecked |
| CalendarNavigation.SetYear | src/components/Calendar.tsx:49-51 | only the year changes |
| CalendarNavigation.MonthNumberInjective | src/types/calendar.ts:1-4 | two in-range states with the same running month count are equal |
| CalendarNavigation.PrevNextInverse | src/components/Calendar.tsx:20-38 | previous then next, or next then previous, returns to the month one started from |
| CalendarNavigation.NextMonthsCount | src/components/Calendar.tsx:30-38 | `n` next-month presses move `n` months forward and stay in range |
| CalendarNavigation.PrevMonthsCount | src/components/Calendar.tsx:20-28 | `n` previous-month presses move `n` months back and stay in range |
| CalendarNavigation.TwelveStepsChangeTheYear | src/components/Calendar.tsx:20-38 | twelve presses either way reach the same month of the next or the previous year |
| CalendarNavigation.GoTodayIdempotent | src/components/Calendar.tsx:40-43 | today's month does not depend on the state before, and pressing twice equals pressing once |
| CalendarNavigation.PickersIndependent | src/components/Calendar.tsx:45-51 | the two pickers commute, a second pick of the same field overrides the first, and picking the shown value changes nothing |
| CalendarNavigation.GenerateYearOptions | src/components/Calendar.tsx:63-70 | 101 years in strictly ascending order, exactly those within 50 of the current year |
| NotesStore.InitialState | src/hooks/useNotesState.ts:6-11 | the store starts hidden with no date or note selected, holding the loaded notes |
| NotesStore.SelectDate | src/hooks/useNotesState.ts:22-29 | the date is selected, the panel shown, the note selection cleared, the notes untouched |
| NotesStore.CloseNotes | src/hooks/useNotesState.ts:31-37 | the panel is hidden and the note selection cleared; the date and the notes stay |
| NotesStore.SelectNote | src/hooks/useNotesState.ts:110-115 | only the selection changes, to the given id unchecked |
| NotesStore.CreateNote | src/hooks/useNotesState.ts:39-56 | the date gains one empty note at the end of its list, created and updated now; every other date is unchanged; the new note is selected |
| NotesStore.FindIndex | src/hooks/useNotesState.ts:65 | the result is -1 exactly when no note carries the id, and otherwise the first position that does |
| NotesStore.UpdateNote | src/hooks/useNotesState.ts:58-84 | the loop over the dates leaves the store with every date's list edited at its first note with the id, and nothing else changed |
| NotesStore.UpdateEditsFirstMatch | src/hooks/useNotesState.ts:63-77 | the dates and list lengths are kept; the first note with the id on each date gets the new content and time and keeps its id, date and creation time; every other note is unchanged |
| NotesStore.UpdateUnknownId | src/hooks/useNotesState.ts:66 | an id that no note carries leaves every list as it was |
| NotesStore.Without | src/hooks/useNotesState.ts:93 | a note is in the filtered list exactly when it was in the list and does not carry the id |
| NotesStore.DeleteNote | src/hooks/useNotesState.ts:86-108 | every date's list is filtered and dropped if empty; the selection is cleared exactly when it was the deleted id; the date and visibility stay |
| NotesStore.PartlyPrunedStep | src/hooks/useNotesState.ts:91-99 | handling one more date of the loop, filtering it and deleting it when empty, moves it from the untouched dates to the pruned ones |
| NotesStore.DeleteRemovesExactlyTheId | src/hooks/useNotesState.ts:91-100 | after the delete no note carries the id, every other note is still on its date, and a date is gone only if all its notes carried the id |
| NotesStore.KeptPositionsExact | src/hooks/useNotesState.ts:93 | the kept positions are in range, increasing, and exactly those whose note does not carry the id |
| NotesStore.FilterKeepsOrder | src/hooks/useNotesState.ts:93 | the filtered list is the kept notes in their original order |
| NotesStore.WithoutNoMatch | src/hooks/useNotesState.ts:93 | a filter that finds nothing to remove returns the list unchanged |
| NotesStore.WithoutAppend | src/hooks/useNotesState.ts:93 | filtering a concatenation filters each part |
| NotesStore.CreateKeepsDatesNonEmpty | src/hooks/useNotesState.ts:39-56 | creating a note leaves no date with an empty list when there was none before |
| NotesStore.UpdateKeepsDatesNonEmpty | src/hooks/useNotesState.ts:58-84 | editing leaves no date with an empty list when there was none before |
| NotesStore.DeleteLeavesDatesNonEmpty | src/hooks/useNotesState.ts:95-99 | after a delete no date has an empty list |
| NotesStore.CreateThenDeleteRestores | src/hooks/useNotesState.ts:39-108 | deleting a note just created under a fresh id gives back the notes of before |
| NotesStore.FreshIdFiltersTo | src/hooks/useNotesState.ts:39-108 | after a note with a fresh id is created, filtering that id out of any date's list leaves the list the date had before |
| NotesStorage.Property | src/utils/notesStorage.ts:26 | `v.name` is defined exactly for an object that has that member |
| NotesStorage.ArrayEntries | src/utils/notesStorage.ts:33 | `Object.entries` of an array maps the key of index `i` to element `i` |
| NotesStorage.StringField | src/utils/notesStorage.ts:38-42 | a field is read exactly when the member exists and is a string |
| NotesStorage.CheckNote | src/utils/notesStorage.ts:35-44 | the filter throws exactly on null, keeps exactly an object whose five members are all strings, and keeps them as the note's fields |
| NotesStorage.FilterNotes | src/utils/notesStorage.ts:35-44 | the filter throws exactly when an element is null; otherwise it keeps at most as many notes as there are elements |
| NotesStorage.FilterNotesKeepsAccepted | src/utils/notesStorage.ts:35-44 | every note the filter keeps comes from an element of the array that the field test accepts as that note |
| NotesStorage.DateNotes | src/utils/notesStorage.ts:34-48 | a date's value throws exactly when it is an array holding null; a value that is not an array contributes nothing |
| NotesStorage.ValidatedNotes | src/utils/notesStorage.ts:32-49 | validation fails exactly when some date throws; otherwise no date is left with an empty list, only stored dates appear, and the date `__proto__` never does (assigning it calls the prototype setter) |
| NotesStorage.LoadedNotes | src/utils/notesStorage.ts:18-56 | the loaded map never has a date with an empty list, nor the date `__proto__` |
| NotesStorage.LoadedDate | src/utils/notesStorage.ts:32-49 | when no date's array holds a null, a date is loaded exactly when it is not `__proto__` and its value is an array with at least one accepted note, and it holds those notes in array order |
| NotesStorage.MissingContentDropped | src/utils/notesStorage.ts:35-46 | a date holding one valid note and one object without `content` loads as that date with only the valid note, or as nothing when the date is `__proto__` |
| NotesStorage.LoadNotesFromStorage | src/utils/notesStorage.ts:18-56 | the loader's checks and loop produce the loaded map, whatever is stored, so no date is empty and `__proto__` is never a date |
| NotesStorage.ValidateEntries | src/utils/notesStorage.ts:32-49 | the loop over the entries, stopping at the first throw, gives the validated map or the failure; its assignment stores every date with kept notes except `__proto__` |
| NotesStorage.EmptyLoads | src/utils/notesStorage.ts:20-29 | nothing stored, an unparsable text, a falsy payload, and a `notesByDate` that is missing, not an object, or null all load as no notes |
| NotesStorage.NullElementEmptiesLoad | src/utils/notesStorage.ts:37-38 | one null element in any date's array makes the whole load empty |
| NotesStorage.FilterNotesConcat | src/utils/notesStorage.ts:35-44 | filtering a concatenation filters each part, and a throw in either part is a throw |
| NotesStorage.FilterNotesSingle | src/utils/notesStorage.ts:35-44 | one element is kept as its note, skipped, or makes the filter throw when it is null |
| NotesStorage.FilterNotesOfSaved | src/utils/notesStorage.ts:9-16 | a saved list of notes filters back to itself |
| NotesStorage.SaveThenLoad | src/utils/notesStorage.ts:9-56 | loading what was saved from a map without empty lists gives that map back, less any `__proto__` date |
| NotesStorage.ValidatedOfSaved | src/utils/notesStorage.ts:32-49 | validating the saved entries gives back the map they were written from, less any `__proto__` date |
| NotesStorage.GenerateNoteId | src/utils/notesStorage.ts:58-64 | every id generated is a lower-case version-4 UUID |
| NotesStorage.HexValue | src/utils/notesStorage.ts:63 | a lower-case hex digit is the `toString(16)` of its value |
| NotesStorage.EveryUuidV4IsGenerated | src/utils/notesStorage.ts:58-64 | every lower-case version-4 UUID is produced by some sequence of draws, so the generator's range is exactly that shape |
| NotesPanel.GetPreviewText | src/components/NotesPanel.tsx:91-95 | blank content previews as `(Empty)`; otherwise the preview is the whole first line when it has at most 50 characters, else its first 50 characters and `...`; never more than 53 characters |
| NotesPanel.LeadingNewlinePreviewsEmpty | src/components/NotesPanel.tsx:93 | a non-blank note that starts with a line feed previews as the empty string |
| NotesPanel.LeadingNewlineExample | src/components/NotesPanel.tsx:91-95 | `"\nabc"` previews as the empty string |
| NotesPanel.InsertByTime | src/components/NotesPanel.tsx:29-31 | inserting keeps a newest-first list newest-first and adds exactly the one note |
| NotesPanel.SortedNotes | src/components/NotesPanel.tsx:29-31 | the sorted list is a permutation of the notes, newest update first |
| NotesPanel.UpdatedAtCons | src/components/NotesPanel.tsx:29-31 | the notes of one time in a list with a note in front are that note, if it has the time, followed by those of the rest |
| NotesPanel.InsertByTimeStable | src/components/NotesPanel.tsx:29-31 | inserting puts the note in front of the notes of its own time and leaves other times alone |
| NotesPanel.SortedNotesStable | src/components/NotesPanel.tsx:29-31 | for every time, the notes updated at that time keep their relative order |
| NotesPanel.SelectedNote | src/components/NotesPanel.tsx:28 | no note is found exactly when nothing is selected or no note carries the id; a found note is one of the notes |
| NotesPanel.NotesPanelView.constructor | src/components/NotesPanel.tsx:15-26 | the panel starts with an empty editor and status over the given store and date |
| NotesPanel.NotesPanelView.SyncEditor | src/components/NotesPanel.tsx:33-40 | the editor holds the selected note's content, or nothing when no note is found; nothing else changes |
| NotesPanel.NotesPanelView.EditorChange | src/components/NotesPanel.tsx:57-63 | a keystroke puts its text in the editor at once and changes nothing else; a commit is scheduled exactly when a non-empty note id is selected, and one that is not scheduled would not have passed the commit's guard |
| NotesPanel.NotesPanelView.CommitEdit | src/components/NotesPanel.tsx:43-55 | when a note id is selected and the text differs from the found note's, the store is updated and the status set; otherwise nothing changes |
| NotesPanel.NotesPanelView.DeleteNoteConfirmed | src/components/NotesPanel.tsx:78-85 | on a refusal nothing changes; on confirmation the note is deleted and a selection of it cleared |
| NotesPanel.NotesPanelView.NewNote | src/components/NotesPanel.tsx:65-76 | as written, the store gains the created note while the selection is the panel's own id, so with two different ids the editor is not shown |
| NotesPanel.NotesPanelView.NewNoteSelectingCreated | src/components/NotesPanel.tsx:65-76 | corrected: with a fresh id the created empty note is the panel's found note, and the editor is shown |
| NotesPanel.NewNoteSelectionDangles | src/components/NotesPanel.tsx:65-76 | as written, the date gains the empty note but the new selection finds no note of the date |
| NotesPanel.NewNoteIsSelected | src/hooks/useNotesState.ts:39-56 | after creating a note under a fresh id, the panel's lookup finds that empty note |
| NotesPanel.CommitEditsSelectedNote | src/components/NotesPanel.tsx:49-50 | a commit while the selected note is on the shown date gives that note the new content and time, and it stays selected |

## Left out

- Timers are not modelled. These are the 300 ms debounce of the panel, the 300 ms delayed save of the store, the 3 s clearing of the save status, the 100 ms editor focus and the `debounceRef` handle. A commit is modelled as the timer's callback running on the state it closed over, and coalescing of keystrokes is not modelled.
- `handleEditorChange` is modelled up to its timer: EditorChange reports whether a commit is scheduled, and CommitEdit is that commit when it fires. Cancelling the commit a previous keystroke scheduled is timing and is left out.
- `handleNoteSelect` only forwards to `selectNote`, which is modelled, so it has no member of its own.
- `formatTimeForDisplay` and `formatDateTimeForDisplay` are not modelled. The `HH:mm` text of the save status is an input, because it depends on the clock and the local time zone.
- Browser storage and JSON text are not modelled. `saveNotesToStorage` is modelled as the value it writes, and the loader starts from the parsed value or from "nothing stored" or "unparsable". Storage errors and `console.warn` are left out.
- Extra members of a stored note, and the order of object keys, are not kept; the model's map has no order.
- `Math.random` is an input: one draw in 0..15 per template position.
- Time zones are left out. `new Date('yyyy-MM-dd')` parses as UTC, while date-fns formats in local time; the model uses one calendar for both.
- DateHelpers.DateKeyToDate: only keys of the exact `yyyy-MM-dd` shape with a valid day parse. The engine's looser parsing (other formats, day overflow) and years outside 0..9999 are not modelled.
- The years-0..99 rule of `new Date(year, month)` is modelled only in TargetMonth. Years before 1 are modelled by Gregorian, YearToken and EraYearKeysCollide, but DateKeyRoundTrip covers years 1..9999 only.
- `createNote` reads the clock twice; the model uses one `now` for both timestamps, and `updateNote` uses one `now` for every date.
- String lengths count characters, not UTF-16 code units.
- `new Date(updatedAt).getTime()` is the total function `timeOf`; an unparsable timestamp (`NaN`, which breaks the comparator's ordering) is not modelled.
- CalendarHelpers.EachDayOfInterval requires start on or before end, which always holds for a grid; the engine's throw on a reversed interval is not modelled.
- NotesPanel: the model does not claim that the selected note always exists, because the source does not keep that invariant (see Findings).
- NotesStorage.ArrayEntries: for a `notesByDate` that is an array, the keys are characterised only by the lookups of the indices, not as exactly those keys.
- `window.confirm` is an input boolean.
- Keyboard shortcuts (`useKeyboardNavigation`, the panel's Ctrl+N and Escape), rendering, `App.tsx` and `TopBar.tsx` are not modelled. The one piece of rendering kept is the editor's gate, NotesPanel.NotesPanelView.EditorShown.
- The wiring is left out: `App.tsx` mounts no notes panel and no store and passes no `onDateClick`, so a date click reaches nothing. The panel, the store and the loader are modelled as the components they are, not as running parts of the application.
- `getCurrentYearMonth` and the calendar's initial state read the clock; today's day is an input of GoToday and GetDaysMatrix instead.

## Findings

| source | as written | input that shows it | evidently intended | confidence | as-written member | corrected member |
|---|---|---|---|---|---|---|
| src/components/NotesPanel.tsx:65-76 | `handleNewNote` builds a note object with its own generated id, then calls `createNote`, which stores a note under a second generated id, and then selects the first id, which no stored note carries | any new note: the store holds id `s`, the selection is id `p` with `p != s`, so `selectedNote` is undefined and the editor, which renders only for a found note (lines 199-226), does not open on the new note; the user must click the note in the list to edit it. The defect is latent, since `App.tsx` does not mount the panel | the note that `createNote` stores becomes the selected note, so the editor opens on it | high; not executed | NotesPanel.NotesPanelView.NewNote, NotesPanel.NewNoteSelectionDangles | NotesPanel.NotesPanelView.NewNoteSelectingCreated, NotesPanel.NewNoteIsSelected |
