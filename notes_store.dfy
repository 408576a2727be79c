/**
 * The notes store: the state the notes hook keeps and the actions that map
 * one state to the next. The clock reading (`now`) and the id the random
 * generator would produce are inputs.
 */
module NotesStore {
  import opened Optional
  import opened NotesTypes

  /** The state the hook starts from, with `notesByDate` as the load from storage returned it. */
  function InitialState(loaded: NotesByDate): (s: NotesState)
    ensures s.selectedDateKey == None && s.selectedNoteId == None && !s.isNotesVisible
    ensures s.notesByDate == loaded
  {
    NotesState(None, loaded, None, false)
  }

  /** `selectDate(dateKey)`: show the panel for `dateKey`, with no note selected. */
  function SelectDate(prev: NotesState, dateKey: DateKey): (next: NotesState)
    ensures next.selectedDateKey == Some(dateKey) && next.isNotesVisible && next.selectedNoteId == None
    ensures next.notesByDate == prev.notesByDate
  {
    prev.(selectedDateKey := Some(dateKey), isNotesVisible := true, selectedNoteId := None)
  }

  /** `closeNotes()`: hide the panel and drop the note selection, keeping the selected date. */
  function CloseNotes(prev: NotesState): (next: NotesState)
    ensures !next.isNotesVisible && next.selectedNoteId == None
    ensures next.selectedDateKey == prev.selectedDateKey && next.notesByDate == prev.notesByDate
  {
    prev.(isNotesVisible := false, selectedNoteId := None)
  }

  /** `selectNote(noteId)`: only the selection changes, and the id is not checked against the notes. */
  function SelectNote(prev: NotesState, noteId: Option<string>): (next: NotesState)
    ensures next.selectedNoteId == noteId
    ensures next.selectedDateKey == prev.selectedDateKey && next.notesByDate == prev.notesByDate
    ensures next.isNotesVisible == prev.isNotesVisible
  {
    prev.(selectedNoteId := noteId)
  }

  /** The notes of `dateKey`, or none (`prev.notesByDate[dateKey] || []`). */
  function NotesOn(m: NotesByDate, dateKey: DateKey): seq<Note>
  {
    if dateKey in m then m[dateKey] else []
  }

  /**
   * `createNote(dateKey)`: an empty note with the generated `id`, created and
   * updated at `now`, is appended to the date's list (a new list if the date
   * had none) and becomes the selected note.
   */
  function CreateNote(prev: NotesState, dateKey: DateKey, id: string, now: string): (next: NotesState)
    ensures next.notesByDate.Keys == prev.notesByDate.Keys + {dateKey}
    ensures next.notesByDate[dateKey] == NotesOn(prev.notesByDate, dateKey) + [Note(id, dateKey, "", now, now)]
    ensures forall k :: k in prev.notesByDate && k != dateKey ==> next.notesByDate[k] == prev.notesByDate[k]
    ensures next.selectedNoteId == Some(id)
    ensures next.selectedDateKey == prev.selectedDateKey && next.isNotesVisible == prev.isNotesVisible
  {
    var newNote := Note(id, dateKey, "", now, now);
    prev.(notesByDate := prev.notesByDate[dateKey := NotesOn(prev.notesByDate, dateKey) + [newNote]],
          selectedNoteId := Some(id))
  }

  /** `notes.findIndex(note => note.id === id)`: the first position holding `id`, or -1. */
  function FindIndex(notes: seq<Note>, id: string): (r: int)
    ensures -1 <= r < |notes|
    ensures r == -1 <==> forall i :: 0 <= i < |notes| ==> notes[i].id != id
    ensures r >= 0 ==> notes[r].id == id && forall i :: 0 <= i < r ==> notes[i].id != id
  {
    if |notes| == 0 then -1
    else if notes[0].id == id then 0
    else
      var r := FindIndex(notes[1..], id);
      if r == -1 then -1 else r + 1
  }

  /** The note after an edit: new content, new `updatedAt`, everything else kept. */
  function Edited(n: Note, content: string, now: string): Note
  {
    n.(content := content, updatedAt := now)
  }

  /** One date's list after `updateNote`: its first note with `id` edited, the rest as they were. */
  function UpdatedList(notes: seq<Note>, id: string, content: string, now: string): seq<Note>
  {
    var j := FindIndex(notes, id);
    if j == -1 then notes else notes[..j] + [Edited(notes[j], content, now)] + notes[j + 1..]
  }

  /** Every date's list after `updateNote`. */
  function UpdatedNotes(m: NotesByDate, id: string, content: string, now: string): NotesByDate
  {
    map k | k in m :: UpdatedList(m[k], id, content, now)
  }

  /**
   * `updateNote(noteId, content)`: a copy of the map, then a loop over its
   * dates that replaces each date's list by one with its first note carrying
   * `noteId` edited. Nothing but `notesByDate` changes.
   */
  method UpdateNote(prev: NotesState, noteId: string, content: string, now: string) returns (next: NotesState)
    ensures next == prev.(notesByDate := UpdatedNotes(prev.notesByDate, noteId, content, now))
  {
    var updatedNotesByDate := prev.notesByDate;
    var remaining := updatedNotesByDate.Keys;
    while remaining != {}
      invariant remaining <= prev.notesByDate.Keys
      invariant updatedNotesByDate.Keys == prev.notesByDate.Keys
      invariant forall k :: k in remaining ==> updatedNotesByDate[k] == prev.notesByDate[k]
      invariant forall k :: k in prev.notesByDate && k !in remaining ==>
        updatedNotesByDate[k] == UpdatedList(prev.notesByDate[k], noteId, content, now)
      decreases remaining
    {
      var dateKey :| dateKey in remaining;
      var notes := updatedNotesByDate[dateKey];
      var noteIndex := FindIndex(notes, noteId);
      assert notes == prev.notesByDate[dateKey];
      if noteIndex != -1 {
        updatedNotesByDate := updatedNotesByDate[dateKey :=
          notes[..noteIndex] + [notes[noteIndex].(content := content, updatedAt := now)] + notes[noteIndex + 1..]];
      }
      assert updatedNotesByDate[dateKey] == UpdatedList(notes, noteId, content, now);
      remaining := remaining - {dateKey};
    }
    next := prev.(notesByDate := updatedNotesByDate);
  }

  /** `notes.filter(note => note.id !== id)`. */
  function Without(notes: seq<Note>, id: string): (r: seq<Note>)
    ensures |r| <= |notes|
    ensures forall n :: n in r <==> n in notes && n.id != id
  {
    if |notes| == 0 then []
    else if notes[0].id == id then Without(notes[1..], id)
    else [notes[0]] + Without(notes[1..], id)
  }

  /** Every date's list after `deleteNote`: filtered, and dropped when the filter leaves it empty. */
  function PrunedNotes(m: NotesByDate, id: string): NotesByDate
  {
    map k | k in m && Without(m[k], id) != [] :: Without(m[k], id)
  }

  /**
   * `deleteNote(noteId)`: a copy of the map, then a loop over its dates that
   * filters out the notes carrying `noteId` and deletes a date whose list
   * comes out empty; the selection is cleared exactly when it was `noteId`.
   */
  method DeleteNote(prev: NotesState, noteId: string) returns (next: NotesState)
    ensures next.notesByDate == PrunedNotes(prev.notesByDate, noteId)
    ensures next.selectedNoteId == if prev.selectedNoteId == Some(noteId) then None else prev.selectedNoteId
    ensures next.selectedDateKey == prev.selectedDateKey && next.isNotesVisible == prev.isNotesVisible
  {
    var updatedNotesByDate := prev.notesByDate;
    var remaining := updatedNotesByDate.Keys;
    PartlyPrunedStart(prev.notesByDate, noteId);
    while remaining != {}
      invariant remaining <= prev.notesByDate.Keys
      invariant updatedNotesByDate == PartlyPruned(prev.notesByDate, remaining, noteId)
      decreases remaining
    {
      var dateKey :| dateKey in remaining;
      var notes := updatedNotesByDate[dateKey];
      var filteredNotes := Without(notes, noteId);
      if |filteredNotes| == 0 {
        updatedNotesByDate := updatedNotesByDate - {dateKey};
      } else {
        updatedNotesByDate := updatedNotesByDate[dateKey := filteredNotes];
      }
      PartlyPrunedStep(prev.notesByDate, remaining, dateKey, noteId);
      remaining := remaining - {dateKey};
    }
    PartlyPrunedDone(prev.notesByDate, noteId);
    var selected := if prev.selectedNoteId == Some(noteId) then None else prev.selectedNoteId;
    next := prev.(notesByDate := updatedNotesByDate, selectedNoteId := selected);
  }

  /**
   * The map part-way through the loop of `deleteNote`: the dates still in
   * `remaining` are untouched, the others are filtered and dropped when empty.
   */
  function PartlyPruned(m: NotesByDate, remaining: set<DateKey>, id: string): NotesByDate
  {
    map k | k in m && (k in remaining || Without(m[k], id) != []) ::
      if k in remaining then m[k] else Without(m[k], id)
  }

  lemma PartlyPrunedStart(m: NotesByDate, id: string)
    ensures PartlyPruned(m, m.Keys, id) == m
  {
  }

  /** Filtering one more date `dateKey` moves it out of `remaining`. */
  lemma PartlyPrunedStep(m: NotesByDate, remaining: set<DateKey>, dateKey: DateKey, id: string)
    requires remaining <= m.Keys && dateKey in remaining
    ensures var u := PartlyPruned(m, remaining, id);
      var filtered := Without(u[dateKey], id);
      PartlyPruned(m, remaining - {dateKey}, id)
        == if |filtered| == 0 then u - {dateKey} else u[dateKey := filtered]
  {
  }

  lemma PartlyPrunedDone(m: NotesByDate, id: string)
    ensures PartlyPruned(m, {}, id) == PrunedNotes(m, id)
  {
  }

  /**
   * `updateNote` keeps every date and every position: in each date only the
   * first note carrying `id` changes, and only in `content` and `updatedAt`;
   * its `id`, `dateKey` and `createdAt` stay.
   */
  lemma UpdateEditsFirstMatch(m: NotesByDate, id: string, content: string, now: string)
    ensures var r := UpdatedNotes(m, id, content, now);
      && r.Keys == m.Keys
      && forall k :: k in m ==>
           && |r[k]| == |m[k]|
           && forall i :: 0 <= i < |m[k]| ==>
                && r[k][i].id == m[k][i].id && r[k][i].dateKey == m[k][i].dateKey
                && r[k][i].createdAt == m[k][i].createdAt
                && if i == FindIndex(m[k], id)
                   then r[k][i].content == content && r[k][i].updatedAt == now
                   else r[k][i] == m[k][i]
  {
    forall k | k in m
      ensures UpdatedNotes(m, id, content, now)[k] == UpdatedList(m[k], id, content, now)
    {
    }
    forall k | k in m {
      UpdatedListPositions(m[k], id, content, now);
    }
  }

  /** Position by position, one date's list after the edit. */
  lemma UpdatedListPositions(notes: seq<Note>, id: string, content: string, now: string)
    ensures var r := UpdatedList(notes, id, content, now);
      && |r| == |notes|
      && forall i :: 0 <= i < |notes| ==>
           r[i] == if i == FindIndex(notes, id) then Edited(notes[i], content, now) else notes[i]
  {
    var j := FindIndex(notes, id);
    if j != -1 {
      var r := UpdatedList(notes, id, content, now);
      var front, back := notes[..j], notes[j + 1..];
      assert r == front + [Edited(notes[j], content, now)] + back;
      forall i | 0 <= i < |notes|
        ensures r[i] == if i == j then Edited(notes[i], content, now) else notes[i]
      {
        if i < j {
          assert r[i] == front[i];
        } else if i > j {
          assert r[i] == back[i - j - 1];
        }
      }
    }
  }

  /** An id that no note carries leaves every list as it was. */
  lemma UpdateUnknownId(m: NotesByDate, id: string, content: string, now: string)
    requires !HasNoteWithId(m, id)
    ensures UpdatedNotes(m, id, content, now) == m
  {
    forall k | k in m
      ensures UpdatedList(m[k], id, content, now) == m[k]
    {
      assert forall i :: 0 <= i < |m[k]| ==> m[k][i].id != id;
    }
  }

  /** No action leaves a date with an empty list behind if there was none before. */
  lemma CreateKeepsDatesNonEmpty(prev: NotesState, dateKey: DateKey, id: string, now: string)
    requires NoEmptyDates(prev.notesByDate)
    ensures NoEmptyDates(CreateNote(prev, dateKey, id, now).notesByDate)
  {
  }

  /** Editing keeps each list's length, so no list becomes empty. */
  lemma UpdateKeepsDatesNonEmpty(m: NotesByDate, id: string, content: string, now: string)
    requires NoEmptyDates(m)
    ensures NoEmptyDates(UpdatedNotes(m, id, content, now))
  {
    UpdateEditsFirstMatch(m, id, content, now);
  }

  /** Deleting leaves no empty list at all, whether or not there were empty lists before. */
  lemma DeleteLeavesDatesNonEmpty(m: NotesByDate, id: string)
    ensures NoEmptyDates(PrunedNotes(m, id))
  {
  }

  /**
   * After `deleteNote(id)` no note carries `id`, and every other note is
   * still on its date; a date is gone only when all its notes carried `id`.
   */
  lemma DeleteRemovesExactlyTheId(m: NotesByDate, id: string)
    ensures var r := PrunedNotes(m, id);
      && !HasNoteWithId(r, id)
      && (forall k: DateKey, n: Note :: n.id != id ==> (k in m && n in m[k] <==> k in r && n in r[k]))
      && (forall k :: k in m && k !in r ==> forall i :: 0 <= i < |m[k]| ==> m[k][i].id == id)
  {
  }

  /** The positions of the notes the filter keeps, in order. */
  function KeptPositions(notes: seq<Note>, id: string): (p: seq<int>)
    ensures |p| <= |notes|
  {
    if |notes| == 0 then []
    else if notes[0].id == id then Shifted(KeptPositions(notes[1..], id))
    else [0] + Shifted(KeptPositions(notes[1..], id))
  }

  /** Every position one further on. */
  function Shifted(p: seq<int>): (q: seq<int>)
    ensures |q| == |p| && forall i :: 0 <= i < |p| ==> q[i] == p[i] + 1
  {
    seq(|p|, i requires 0 <= i < |p| => p[i] + 1)
  }

  /** The kept positions are in range, increasing, and exactly those whose note does not carry `id`. */
  lemma KeptPositionsExact(notes: seq<Note>, id: string)
    ensures var p := KeptPositions(notes, id);
      && (forall i :: 0 <= i < |p| ==> 0 <= p[i] < |notes|)
      && (forall i, j :: 0 <= i < j < |p| ==> p[i] < p[j])
      && (forall j :: 0 <= j < |notes| ==> (j in p <==> notes[j].id != id))
  {
    KeptPositionsOrdered(notes, id);
    KeptPositionsMembers(notes, id);
  }

  lemma {:induction false} KeptPositionsOrdered(notes: seq<Note>, id: string)
    ensures InRangeIncreasing(KeptPositions(notes, id), |notes|)
  {
    if |notes| > 0 {
      KeptPositionsOrdered(notes[1..], id);
      var tail := KeptPositions(notes[1..], id);
      var shifted := Shifted(tail);
      forall i | 0 <= i < |shifted|
        ensures 1 <= shifted[i] < |notes|
      {
        assert shifted[i] == tail[i] + 1 && tail[i] < |notes| - 1;
      }
      if notes[0].id != id {
        var p := [0] + shifted;
        assert KeptPositions(notes, id) == p;
        assert forall i :: 0 < i < |p| ==> p[i] == shifted[i - 1];
      }
    }
  }

  /** Positions below `n`, strictly increasing. */
  predicate InRangeIncreasing(p: seq<int>, n: int)
  {
    && (forall i :: 0 <= i < |p| ==> 0 <= p[i] < n)
    && (forall i, j :: 0 <= i < j < |p| ==> p[i] < p[j])
  }

  lemma {:induction false} KeptPositionsMembers(notes: seq<Note>, id: string)
    ensures forall j :: 0 <= j < |notes| ==> (j in KeptPositions(notes, id) <==> notes[j].id != id)
  {
    if |notes| > 0 {
      var rest := notes[1..];
      KeptPositionsMembers(rest, id);
      KeptPositionsOrdered(rest, id);
      var tail := KeptPositions(rest, id);
      var shifted := Shifted(tail);
      forall i | 0 <= i < |shifted|
        ensures shifted[i] != 0
      {
        assert shifted[i] == tail[i] + 1 && 0 <= tail[i];
      }
      forall j | 0 < j < |notes|
        ensures j in KeptPositions(notes, id) <==> notes[j].id != id
      {
        assert rest[j - 1] == notes[j];
        ShiftedMember(tail, j);
      }
    }
  }

  /** `j` is among the shifted positions exactly when `j - 1` was among the positions. */
  lemma ShiftedMember(p: seq<int>, j: int)
    ensures j in Shifted(p) <==> j - 1 in p
  {
    var q := Shifted(p);
    if j - 1 in p {
      var i :| 0 <= i < |p| && p[i] == j - 1;
      assert q[i] == j;
    }
  }

  /**
   * The filter of `deleteNote` is stable: its result lists the notes at the
   * kept positions, in order, so the notes that stay keep their order.
   */
  lemma {:induction false} FilterKeepsOrder(notes: seq<Note>, id: string)
    ensures var r, p := Without(notes, id), KeptPositions(notes, id);
      |p| == |r| && forall i :: 0 <= i < |p| ==> 0 <= p[i] < |notes| && r[i] == notes[p[i]]
  {
    if |notes| > 0 {
      var rest := notes[1..];
      FilterKeepsOrder(rest, id);
      var tail, kept := KeptPositions(rest, id), Without(rest, id);
      assert Picks(kept, tail, rest);
      PicksShifted(kept, tail, notes);
      if notes[0].id != id {
        PicksCons(kept, Shifted(tail), notes);
        assert KeptPositions(notes, id) == [0] + Shifted(tail);
        assert Without(notes, id) == [notes[0]] + kept;
      }
    }
  }

  /** `r` lists the notes of `notes` at positions `p`, one for one. */
  predicate Picks(r: seq<Note>, p: seq<int>, notes: seq<Note>)
  {
    |p| == |r| && forall i :: 0 <= i < |p| ==> 0 <= p[i] < |notes| && r[i] == notes[p[i]]
  }

  /** Positions into the tail of a list are positions one further on into the list. */
  lemma PicksShifted(r: seq<Note>, p: seq<int>, notes: seq<Note>)
    requires |notes| > 0 && Picks(r, p, notes[1..])
    ensures Picks(r, Shifted(p), notes)
  {
    var q := Shifted(p);
    forall i | 0 <= i < |q|
      ensures 0 <= q[i] < |notes| && r[i] == notes[q[i]]
    {
      assert notes[1..][p[i]] == notes[p[i] + 1];
    }
  }

  /** Keeping the head in front adds position 0 in front. */
  lemma PicksCons(r: seq<Note>, p: seq<int>, notes: seq<Note>)
    requires |notes| > 0 && Picks(r, p, notes)
    ensures Picks([notes[0]] + r, [0] + p, notes)
  {
    var r', p' := [notes[0]] + r, [0] + p;
    forall i | 0 <= i < |p'|
      ensures 0 <= p'[i] < |notes| && r'[i] == notes[p'[i]]
    {
      if i > 0 {
        assert p'[i] == p[i - 1] && r'[i] == r[i - 1];
      }
    }
  }

  /** A filter that finds nothing to remove returns the list unchanged. */
  lemma {:induction false} WithoutNoMatch(notes: seq<Note>, id: string)
    requires forall i :: 0 <= i < |notes| ==> notes[i].id != id
    ensures Without(notes, id) == notes
  {
    if |notes| > 0 {
      WithoutNoMatch(notes[1..], id);
    }
  }

  /** Filtering a concatenation filters each part. */
  lemma {:induction false} WithoutAppend(a: seq<Note>, b: seq<Note>, id: string)
    ensures Without(a + b, id) == Without(a, id) + Without(b, id)
  {
    if |a| > 0 {
      assert (a + b)[0] == a[0];
      assert (a + b)[1..] == a[1..] + b;
      WithoutAppend(a[1..], b, id);
      if a[0].id != id {
        assert [a[0]] + (Without(a[1..], id) + Without(b, id)) == ([a[0]] + Without(a[1..], id)) + Without(b, id);
      }
    } else {
      assert a + b == b;
    }
  }

  /**
   * With every list non-empty and `id` fresh, creating a note and deleting it
   * again gives back the map one started from: a date that had no notes is
   * absent again, and a date that had some has exactly those.
   */
  lemma CreateThenDeleteRestores(prev: NotesState, dateKey: DateKey, id: string, now: string)
    requires NoEmptyDates(prev.notesByDate) && !HasNoteWithId(prev.notesByDate, id)
    ensures PrunedNotes(CreateNote(prev, dateKey, id, now).notesByDate, id) == prev.notesByDate
  {
    var m := prev.notesByDate;
    var c := CreateNote(prev, dateKey, id, now).notesByDate;
    var p := PrunedNotes(c, id);
    forall k | k in c
      ensures Without(c[k], id) == NotesOn(m, k)
    {
      FreshIdFiltersTo(m, c[k], k, dateKey, id, now);
    }
    assert p.Keys == m.Keys;
    assert forall k :: k in m ==> p[k] == m[k];
  }

  /** After the note `id` is created on `dateKey`, filtering `id` out of a date's list leaves that date's old list. */
  lemma FreshIdFiltersTo(m: NotesByDate, list: seq<Note>, k: DateKey, dateKey: DateKey, id: string, now: string)
    requires !HasNoteWithId(m, id)
    requires k == dateKey ==> list == NotesOn(m, dateKey) + [Note(id, dateKey, "", now, now)]
    requires k != dateKey ==> k in m && list == m[k]
    ensures Without(list, id) == NotesOn(m, k)
  {
    var before := NotesOn(m, k);
    assert forall i :: 0 <= i < |before| ==> before[i].id != id;
    WithoutNoMatch(before, id);
    if k == dateKey {
      var newNote := Note(id, dateKey, "", now, now);
      WithoutAppend(before, [newNote], id);
      assert Without([newNote], id) == [];
    }
  }
}
