/** The notes records. Timestamps are the ISO-8601 texts the app stores. */
module NotesTypes {
  import opened Optional

  /** A calendar day's identity, `YYYY-MM-DD`. */
  type DateKey = string

  datatype Note = Note(id: string, dateKey: DateKey, content: string, createdAt: string, updatedAt: string)

  type NotesByDate = map<DateKey, seq<Note>>

  datatype NotesState = NotesState(
    selectedDateKey: Option<DateKey>,
    notesByDate: NotesByDate,
    selectedNoteId: Option<string>,
    isNotesVisible: bool)

  /** No date maps to an empty list: emptying a date's list removes the date. */
  predicate NoEmptyDates(m: NotesByDate)
  {
    forall k :: k in m ==> m[k] != []
  }

  /** Some note of some date carries `id`. */
  predicate HasNoteWithId(m: NotesByDate, id: string)
  {
    exists k, i :: k in m && 0 <= i < |m[k]| && m[k][i].id == id
  }
}
