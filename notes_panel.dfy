/**
 * The notes panel: the list preview of a note, the most-recently-updated
 * first ordering of the list, the lookup of the selected note, and the
 * commit, delete and new-note flows it runs against the notes store.
 */
module NotesPanel {
  import opened Optional
  import opened JsText
  import opened NotesTypes
  import opened NotesStore

  /* ---------------------------------------------------------------- preview */

  /** Longest first line shown in full. */
  const PREVIEW_LENGTH := 50

  /** `r` is the whole first line of `content`: a prefix with no line feed, ending at a line feed or at the end. */
  predicate IsWholeFirstLine(content: string, r: string)
  {
    && |r| <= |content| && r == content[..|r|] && '\n' !in r
    && (|r| < |content| ==> content[|r|] == '\n')
  }

  /** `r` is the first 50 characters of a first line longer than 50, followed by `...`. */
  predicate IsCutFirstLine(content: string, r: string)
  {
    && |content| > PREVIEW_LENGTH && r == content[..PREVIEW_LENGTH] + "..."
    && '\n' !in content[..PREVIEW_LENGTH + 1]
  }

  /**
   * `getPreviewText(content)`: `(Empty)` for a content that trims to nothing;
   * otherwise the first line, cut to 50 characters followed by `...` when it
   * is longer.
   */
  function GetPreviewText(content: string): (r: string)
    ensures |r| <= PREVIEW_LENGTH + 3
    ensures IsBlank(content) ==> r == "(Empty)"
    ensures !IsBlank(content) ==>
      || (|r| <= PREVIEW_LENGTH && IsWholeFirstLine(content, r))
      || (|r| == PREVIEW_LENGTH + 3 && IsCutFirstLine(content, r))
  {
    TrimEmptyIffBlank(content);
    if Trim(content) == [] then "(Empty)"
    else
      var firstLine := FirstLine(content);
      if |firstLine| > PREVIEW_LENGTH then
        PreviewCut(content);
        firstLine[..PREVIEW_LENGTH] + "..."
      else firstLine
  }

  /** A first line longer than 50 characters has no line feed in its first 51. */
  lemma PreviewCut(content: string)
    requires |FirstLine(content)| > PREVIEW_LENGTH
    ensures IsCutFirstLine(content, FirstLine(content)[..PREVIEW_LENGTH] + "...")
  {
    var firstLine := FirstLine(content);
    assert firstLine[..PREVIEW_LENGTH + 1] == content[..PREVIEW_LENGTH + 1];
    assert firstLine[..PREVIEW_LENGTH] == content[..PREVIEW_LENGTH];
    assert forall c :: c in firstLine[..PREVIEW_LENGTH + 1] ==> c in firstLine;
  }

  /**
   * Blankness is judged on the whole content, not on the first line: a
   * content that starts with a line feed but has text after it previews as
   * the empty text, not as `(Empty)`.
   */
  lemma LeadingNewlinePreviewsEmpty(content: string)
    requires |content| > 0 && content[0] == '\n' && !IsBlank(content)
    ensures GetPreviewText(content) == ""
  {
    TrimEmptyIffBlank(content);
  }

  /** The example of the leading line feed: `"\nabc"` previews as `""`. */
  lemma LeadingNewlineExample()
    ensures GetPreviewText("\nabc") == ""
  {
    assert !IsWhiteSpace("\nabc"[1]);
    LeadingNewlinePreviewsEmpty("\nabc");
  }

  /* --------------------------------------------------------------- ordering */

  /** `new Date(n.updatedAt).getTime()`, with the timestamp parser an input. */
  function UpdatedTime(n: Note, timeOf: string -> int): int
  {
    timeOf(n.updatedAt)
  }

  /** Most recently updated first. */
  predicate NewestFirst(s: seq<Note>, timeOf: string -> int)
  {
    forall i, j :: 0 <= i < j < |s| ==> UpdatedTime(s[i], timeOf) >= UpdatedTime(s[j], timeOf)
  }

  /** Places `x` in front of the first note updated no later than it. */
  function InsertByTime(x: Note, s: seq<Note>, timeOf: string -> int): (r: seq<Note>)
    requires NewestFirst(s, timeOf)
    ensures multiset(r) == multiset(s) + multiset{x}
    ensures NewestFirst(r, timeOf)
  {
    if s == [] || UpdatedTime(s[0], timeOf) <= UpdatedTime(x, timeOf) then [x] + s
    else
      var rest := InsertByTime(x, s[1..], timeOf);
      NoNewerThanHead(x, s, rest, timeOf);
      NewestFirstCons(s[0], rest, timeOf);
      assert s == [s[0]] + s[1..];
      [s[0]] + rest
  }

  /** A list newest first stays so with a note in front that is no older than any of it. */
  lemma NewestFirstCons(a: Note, r: seq<Note>, timeOf: string -> int)
    requires NewestFirst(r, timeOf)
    requires forall i :: 0 <= i < |r| ==> UpdatedTime(r[i], timeOf) <= UpdatedTime(a, timeOf)
    ensures NewestFirst([a] + r, timeOf)
  {
    var ar := [a] + r;
    forall i, j | 0 <= i < j < |ar|
      ensures UpdatedTime(ar[i], timeOf) >= UpdatedTime(ar[j], timeOf)
    {
      assert ar[j] == r[j - 1];
      if i > 0 {
        assert ar[i] == r[i - 1];
      }
    }
  }

  /** The notes of `s` after its head, with `x` older than that head added, are none newer than the head. */
  lemma NoNewerThanHead(x: Note, s: seq<Note>, rest: seq<Note>, timeOf: string -> int)
    requires NewestFirst(s, timeOf) && s != [] && UpdatedTime(x, timeOf) < UpdatedTime(s[0], timeOf)
    requires multiset(rest) == multiset(s[1..]) + multiset{x}
    ensures forall i :: 0 <= i < |rest| ==> UpdatedTime(rest[i], timeOf) <= UpdatedTime(s[0], timeOf)
  {
    forall i | 0 <= i < |rest|
      ensures UpdatedTime(rest[i], timeOf) <= UpdatedTime(s[0], timeOf)
    {
      assert rest[i] in multiset(rest);
      if rest[i] != x {
        assert rest[i] in multiset(s[1..]);
        var k :| 0 <= k < |s[1..]| && s[1..][k] == rest[i];
        assert s[k + 1] == rest[i];
      }
    }
  }

  /**
   * `[...notes].sort((a, b) => time(b) - time(a))`: a stable sort, newest
   * first, of a copy of the list (the list itself is a value and is not
   * reordered). Each note goes in front of the later notes updated no later
   * than it, so notes with equal times keep their order.
   */
  function SortedNotes(notes: seq<Note>, timeOf: string -> int): (r: seq<Note>)
    ensures multiset(r) == multiset(notes)
    ensures NewestFirst(r, timeOf)
  {
    if notes == [] then []
    else
      assert notes == [notes[0]] + notes[1..];
      InsertByTime(notes[0], SortedNotes(notes[1..], timeOf), timeOf)
  }

  /** The notes of a list updated at time `t`, in list order. */
  function UpdatedAt(s: seq<Note>, t: int, timeOf: string -> int): seq<Note>
  {
    if s == [] then []
    else (if UpdatedTime(s[0], timeOf) == t then [s[0]] else []) + UpdatedAt(s[1..], t, timeOf)
  }

  /** The notes of one time in a list with a note in front. */
  lemma UpdatedAtCons(a: Note, s: seq<Note>, t: int, timeOf: string -> int)
    ensures UpdatedAt([a] + s, t, timeOf) == (if UpdatedTime(a, timeOf) == t then [a] else []) + UpdatedAt(s, t, timeOf)
  {
    assert ([a] + s)[1..] == s;
  }

  /** Inserting `x` adds it in front of the notes of its own time and leaves the other times alone. */
  lemma {:induction false} InsertByTimeStable(x: Note, s: seq<Note>, t: int, timeOf: string -> int)
    requires NewestFirst(s, timeOf)
    ensures UpdatedAt(InsertByTime(x, s, timeOf), t, timeOf) ==
      (if UpdatedTime(x, timeOf) == t then [x] else []) + UpdatedAt(s, t, timeOf)
  {
    if s == [] || UpdatedTime(s[0], timeOf) <= UpdatedTime(x, timeOf) {
      UpdatedAtCons(x, s, t, timeOf);
    } else {
      var rest := InsertByTime(x, s[1..], timeOf);
      InsertByTimeStable(x, s[1..], t, timeOf);
      UpdatedAtCons(s[0], rest, t, timeOf);
      UpdatedAtCons(s[0], s[1..], t, timeOf);
      assert [s[0]] + s[1..] == s;
      var head := if UpdatedTime(s[0], timeOf) == t then [s[0]] else [];
      var own := if UpdatedTime(x, timeOf) == t then [x] else [];
      assert head == [] || own == [];
      assert head + (own + UpdatedAt(s[1..], t, timeOf)) == own + (head + UpdatedAt(s[1..], t, timeOf));
    }
  }

  /** The sort is stable: for every time, the notes updated at that time appear in the order they had. */
  lemma {:induction false} SortedNotesStable(notes: seq<Note>, t: int, timeOf: string -> int)
    ensures UpdatedAt(SortedNotes(notes, timeOf), t, timeOf) == UpdatedAt(notes, t, timeOf)
  {
    if notes != [] {
      SortedNotesStable(notes[1..], t, timeOf);
      InsertByTimeStable(notes[0], SortedNotes(notes[1..], timeOf), t, timeOf);
    }
  }

  /* ----------------------------------------------------------------- lookup */

  /** `notes.find(note => note.id === selectedNoteId)`; a null selection matches no note. */
  function SelectedNote(notes: seq<Note>, selectedNoteId: Option<string>): (r: Option<Note>)
    ensures r.None? <==> selectedNoteId.None? || forall i :: 0 <= i < |notes| ==> notes[i].id != selectedNoteId.value
    ensures r.Some? ==> exists i :: 0 <= i < |notes| && notes[i] == r.value
                          && Some(r.value.id) == selectedNoteId
                          && forall j :: 0 <= j < i ==> notes[j].id != r.value.id
  {
    if selectedNoteId.None? then None
    else
      var i := FindIndex(notes, selectedNoteId.value);
      if i == -1 then None else Some(notes[i])
  }

  /* ------------------------------------------------------------- the panel */

  /**
   * The guard of the debounced commit: a selection that is a non-empty id,
   * and content that differs from the selected note's (any content differs
   * when the selection matches no note).
   */
  predicate ShouldCommit(selectedNoteId: Option<string>, selectedNote: Option<Note>, content: string)
  {
    selectedNoteId.Some? && selectedNoteId.value != "" && (selectedNote.None? || content != selectedNote.value.content)
  }

  /**
   * The panel together with the store state it acts on through the notes
   * actions: the date it shows, the editor's text and the save status line.
   */
  class NotesPanelView {
    var store: NotesState
    var selectedDateKey: DateKey
    var editorContent: string
    var saveStatus: string

    constructor (store: NotesState, selectedDateKey: DateKey)
      ensures this.store == store && this.selectedDateKey == selectedDateKey
      ensures editorContent == "" && saveStatus == ""
    {
      this.store := store;
      this.selectedDateKey := selectedDateKey;
      editorContent := "";
      saveStatus := "";
    }

    /** The `notes` the panel lists: the shown date's notes. */
    function Notes(): seq<Note>
      reads this
    {
      NotesOn(store.notesByDate, selectedDateKey)
    }

    /** `selectedNote`. */
    function CurrentNote(): Option<Note>
      reads this
    {
      SelectedNote(Notes(), store.selectedNoteId)
    }

    /** The editor (title, delete button and text area) is rendered only while `selectedNote` is found. */
    predicate EditorShown()
      reads this
    {
      CurrentNote().Some?
    }

    /** The effect that loads the selected note into the editor, or clears it when none is found. */
    method SyncEditor()
      modifies this
      ensures store == old(store) && selectedDateKey == old(selectedDateKey) && saveStatus == old(saveStatus)
      ensures editorContent == if CurrentNote().Some? then CurrentNote().value.content else ""
    {
      var note := CurrentNote();
      editorContent := if note.Some? then note.value.content else "";
    }

    /**
     * `handleEditorChange`: the text area's value becomes the editor's content,
     * and a commit of it is scheduled (`scheduled`) when a note id is selected.
     * A keystroke that schedules nothing is one no commit would have saved.
     */
    method EditorChange(newContent: string) returns (scheduled: bool)
      modifies this
      ensures store == old(store) && selectedDateKey == old(selectedDateKey) && saveStatus == old(saveStatus)
      ensures editorContent == newContent
      ensures scheduled <==> store.selectedNoteId.Some? && store.selectedNoteId.value != ""
      ensures !scheduled ==> !ShouldCommit(store.selectedNoteId, CurrentNote(), newContent)
    {
      editorContent := newContent;
      scheduled := store.selectedNoteId.Some? && store.selectedNoteId.value != "";
    }

    /**
     * The debounced commit of `content`: when the guard holds, `updateNote`
     * runs on the selected id and the status reports the save at `clockText`
     * (the `HH:mm` reading); otherwise nothing changes.
     */
    method CommitEdit(content: string, now: string, clockText: string)
      modifies this
      ensures selectedDateKey == old(selectedDateKey) && editorContent == old(editorContent)
      ensures old(ShouldCommit(store.selectedNoteId, CurrentNote(), content)) ==>
        && store == old(store).(notesByDate := UpdatedNotes(old(store.notesByDate), old(store.selectedNoteId.value), content, now))
        && saveStatus == "Saved at " + clockText
      ensures !old(ShouldCommit(store.selectedNoteId, CurrentNote(), content)) ==>
        store == old(store) && saveStatus == old(saveStatus)
    {
      var selectedNoteId := store.selectedNoteId;
      var selectedNote := CurrentNote();
      if ShouldCommit(selectedNoteId, selectedNote, content) {
        store := UpdateNote(store, selectedNoteId.value, content, now);
        saveStatus := "Saved at " + clockText;
      }
    }

    /**
     * `handleDeleteNote(noteId)` with the answer of the confirmation dialog:
     * on yes the note is deleted and, when it was the selected one, the
     * selection is set to null; on no nothing happens.
     */
    method DeleteNoteConfirmed(noteId: string, confirmed: bool)
      modifies this
      ensures selectedDateKey == old(selectedDateKey) && editorContent == old(editorContent) && saveStatus == old(saveStatus)
      ensures !confirmed ==> store == old(store)
      ensures confirmed ==>
        && store.notesByDate == PrunedNotes(old(store.notesByDate), noteId)
        && store.selectedNoteId == (if old(store.selectedNoteId) == Some(noteId) then None else old(store.selectedNoteId))
        && store.selectedDateKey == old(store.selectedDateKey) && store.isNotesVisible == old(store.isNotesVisible)
    {
      var selectedNoteId := store.selectedNoteId;
      if confirmed {
        store := DeleteNote(store, noteId);
        if Some(noteId) == selectedNoteId {
          store := SelectNote(store, None);
        }
      }
    }

    /**
     * `handleNewNote()` as written: `createNote` stores a note under the id it
     * generates (`storeId`), then `selectNote` selects the id the panel
     * generated for a note object of its own (`panelId`), which is never stored,
     * so the editor does not open on the new note.
     */
    method NewNote(storeId: string, panelId: string, now: string)
      modifies this
      ensures selectedDateKey == old(selectedDateKey) && editorContent == old(editorContent) && saveStatus == old(saveStatus)
      ensures store == SelectNote(CreateNote(old(store), old(selectedDateKey), storeId, now), Some(panelId))
      ensures panelId != storeId && !old(HasNoteWithId(store.notesByDate, panelId)) ==> !EditorShown()
    {
      store := CreateNote(store, selectedDateKey, storeId, now);
      store := SelectNote(store, Some(panelId));
      if panelId != storeId && !old(HasNoteWithId(store.notesByDate, panelId)) {
        NewNoteSelectionDangles(old(store), selectedDateKey, storeId, panelId, now);
      }
    }

    /** `handleNewNote()` as intended: the note `createNote` stores is the one selected. */
    method NewNoteSelectingCreated(storeId: string, now: string)
      requires !HasNoteWithId(store.notesByDate, storeId)
      modifies this
      ensures selectedDateKey == old(selectedDateKey) && editorContent == old(editorContent) && saveStatus == old(saveStatus)
      ensures store == CreateNote(old(store), old(selectedDateKey), storeId, now)
      ensures CurrentNote() == Some(Note(storeId, selectedDateKey, "", now, now)) && EditorShown()
    {
      store := CreateNote(store, selectedDateKey, storeId, now);
      NewNoteIsSelected(old(store), selectedDateKey, storeId, now);
    }
  }

  /**
   * As written, a new note is never the selected one: with two different ids,
   * the second unknown to the store, the note is appended to the date but the
   * selection matches no note of it, so the editor is not shown.
   */
  lemma NewNoteSelectionDangles(s: NotesState, dateKey: DateKey, storeId: string, panelId: string, now: string)
    requires panelId != storeId && !HasNoteWithId(s.notesByDate, panelId)
    ensures var after := SelectNote(CreateNote(s, dateKey, storeId, now), Some(panelId));
      && NotesOn(after.notesByDate, dateKey) == NotesOn(s.notesByDate, dateKey) + [Note(storeId, dateKey, "", now, now)]
      && SelectedNote(NotesOn(after.notesByDate, dateKey), after.selectedNoteId) == None
  {
    var notes := NotesOn(s.notesByDate, dateKey);
    assert forall i :: 0 <= i < |notes| ==> notes[i].id != panelId;
  }

  /** With the created note selected, the panel finds it, empty, under its fresh id. */
  lemma NewNoteIsSelected(s: NotesState, dateKey: DateKey, storeId: string, now: string)
    requires !HasNoteWithId(s.notesByDate, storeId)
    ensures var after := CreateNote(s, dateKey, storeId, now);
      SelectedNote(NotesOn(after.notesByDate, dateKey), after.selectedNoteId) == Some(Note(storeId, dateKey, "", now, now))
  {
    var after := CreateNote(s, dateKey, storeId, now);
    var notes := NotesOn(after.notesByDate, dateKey);
    var before := NotesOn(s.notesByDate, dateKey);
    assert notes == before + [Note(storeId, dateKey, "", now, now)];
    assert forall i :: 0 <= i < |before| ==> before[i].id != storeId;
    assert forall i :: 0 <= i < |before| ==> notes[i] == before[i];
    assert notes[|notes| - 1].id == storeId;
    assert FindIndex(notes, storeId) == |notes| - 1;
  }

  /**
   * A commit that passes the guard while the selected note is on the shown
   * date gives that note the new content and time, and it stays the selected note.
   */
  lemma CommitEditsSelectedNote(s: NotesState, dateKey: DateKey, content: string, now: string)
    requires dateKey in s.notesByDate && SelectedNote(s.notesByDate[dateKey], s.selectedNoteId).Some?
    ensures var n := SelectedNote(s.notesByDate[dateKey], s.selectedNoteId).value;
      var after := UpdatedNotes(s.notesByDate, s.selectedNoteId.value, content, now);
      dateKey in after && SelectedNote(after[dateKey], s.selectedNoteId) == Some(n.(content := content, updatedAt := now))
  {
    var id := s.selectedNoteId.value;
    var before := s.notesByDate[dateKey];
    UpdateEditsFirstMatch(s.notesByDate, id, content, now);
    var after := UpdatedNotes(s.notesByDate, id, content, now)[dateKey];
    var i := FindIndex(before, id);
    assert after[i].id == id;
    assert forall j :: 0 <= j < i ==> after[j] == before[j];
    assert FindIndex(after, id) == i;
  }
}
