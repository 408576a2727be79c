/**
 * Persistence of the notes: the validation `loadNotesFromStorage` applies to
 * what it reads back, and the shape of the ids `generateNoteId` makes.
 * Storage and JSON text are outside the model: the load starts from the value
 * `JSON.parse` produced, and the random source is an input.
 */
module NotesStorage {
  import opened Optional
  import opened JsText
  import opened NotesTypes

  /** A parsed JSON value. An object's members are keyed by name, as `JSON.parse` leaves them. */
  datatype Json =
    | JNull
    | JBool(b: bool)
    | JNumber(x: real)
    | JString(s: string)
    | JArray(items: seq<Json>)
    | JObject(fields: map<string, Json>)

  /** What the storage slot yields: nothing (no item, or an empty text), a text `JSON.parse` rejects, or a value. */
  datatype Stored = NothingStored | Unparsable | Parsed(data: Json)

  /** JavaScript truthiness of a parsed value. */
  predicate Truthy(v: Json)
  {
    match v
    case JNull => false
    case JBool(b) => b
    case JNumber(x) => x != 0.0
    case JString(s) => s != ""
    case JArray(_) => true
    case JObject(_) => true
  }

  /** `v[name]` on a value that is not null: a member of an object, and `undefined` (None) otherwise. */
  function Property(v: Json, name: string): (r: Option<Json>)
    requires v != JNull
    ensures r.Some? <==> v.JObject? && name in v.fields
  {
    if v.JObject? && name in v.fields then Some(v.fields[name]) else None
  }

  /** `typeof v === 'object'`: null, arrays and objects; `undefined` is not. */
  predicate TypeofObject(v: Option<Json>)
  {
    v.Some? && (v.value.JNull? || v.value.JArray? || v.value.JObject?)
  }

  /** The entries of an array, keyed `"0"`, `"1"`, ... as `Object.entries` lists them. */
  function ArrayEntries(items: seq<Json>, n: nat): (r: map<string, Json>)
    requires n <= |items|
    ensures forall i :: 0 <= i < n ==> Decimal(i) in r && r[Decimal(i)] == items[i]
  {
    if n == 0 then map[]
    else
      var r := ArrayEntries(items, n - 1);
      DecimalsDiffer(n - 1);
      r[Decimal(n - 1) := items[n - 1]]
  }

  /** Distinct indices have distinct keys. */
  lemma DecimalsDiffer(n: nat)
    ensures forall i :: 0 <= i < n ==> Decimal(i) != Decimal(n)
  {
    forall i | 0 <= i < n
      ensures Decimal(i) != Decimal(n)
    {
      if Decimal(i) == Decimal(n) {
        DecimalInjective(i, n);
      }
    }
  }

  /** `Object.entries(v)` for an array or an object, as a map from key to value. */
  function Entries(v: Json): map<string, Json>
    requires v.JArray? || v.JObject?
  {
    if v.JArray? then ArrayEntries(v.items, |v.items|) else v.fields
  }

  /** What the note filter does with one element: keep it as a note, skip it, or throw. */
  datatype Verdict = Keep(note: Note) | Skip | Throw

  /** A member that is a string, or None. */
  function StringField(fields: map<string, Json>, name: string): (r: Option<string>)
    ensures r.Some? <==> name in fields && fields[name].JString?
  {
    if name in fields && fields[name].JString? then Some(fields[name].s) else None
  }

  /**
   * The filter's test on one element: an object whose `id`, `dateKey`,
   * `content`, `createdAt` and `updatedAt` are all strings is kept; anything
   * else is skipped, except null, which passes the `typeof` test and then
   * throws on `note.id`.
   */
  function CheckNote(v: Json): (r: Verdict)
    ensures r.Throw? <==> v == JNull
    ensures r.Keep? <==> v.JObject? && forall name :: name in NOTE_FIELDS ==> StringField(v.fields, name).Some?
    ensures r.Keep? ==> r.note == Note(v.fields["id"].s, v.fields["dateKey"].s, v.fields["content"].s,
                                       v.fields["createdAt"].s, v.fields["updatedAt"].s)
  {
    match v
    case JNull => Throw
    case JObject(f) =>
      var id, dateKey, content := StringField(f, "id"), StringField(f, "dateKey"), StringField(f, "content");
      var createdAt, updatedAt := StringField(f, "createdAt"), StringField(f, "updatedAt");
      if id.Some? && dateKey.Some? && content.Some? && createdAt.Some? && updatedAt.Some? then
        Keep(Note(id.value, dateKey.value, content.value, createdAt.value, updatedAt.value))
      else Skip
    case _ => Skip
  }

  /** The five members a stored note must carry as strings. */
  const NOTE_FIELDS: set<string> := {"id", "dateKey", "content", "createdAt", "updatedAt"}

  /**
   * `notes.filter(isNote)` on one date's array: the kept notes in order, or
   * None when the filter throws, which it does exactly when the array holds a null.
   */
  function FilterNotes(items: seq<Json>): (r: Option<seq<Note>>)
    ensures r.None? <==> JNull in items
    ensures r.Some? ==> |r.value| <= |items|
  {
    if |items| == 0 then Some([])
    else
      var rest := FilterNotes(items[1..]);
      assert JNull in items <==> items[0] == JNull || JNull in items[1..];
      match CheckNote(items[0])
      case Throw => None
      case Skip => rest
      case Keep(n) => if rest.None? then None else Some([n] + rest.value)
  }

  /** Every note the filter keeps is an element of the array that the test accepts as that note. */
  lemma {:induction false} FilterNotesKeepsAccepted(items: seq<Json>)
    ensures FilterNotes(items).Some? ==>
      forall n :: n in FilterNotes(items).value ==> exists v :: v in items && CheckNote(v) == Keep(n)
  {
    if |items| > 0 && FilterNotes(items).Some? {
      FilterNotesKeepsAccepted(items[1..]);
      var kept, rest := FilterNotes(items).value, FilterNotes(items[1..]);
      forall n | n in kept
        ensures exists v :: v in items && CheckNote(v) == Keep(n)
      {
        if CheckNote(items[0]) == Keep(n) {
          assert items[0] in items;
        } else {
          assert n in rest.value;
          var v :| v in items[1..] && CheckNote(v) == Keep(n);
          assert v in items;
        }
      }
    }
  }

  /** One date's value: None when its filter throws; the kept notes of an array; nothing for a non-array. */
  function DateNotes(v: Json): (r: Option<seq<Note>>)
    ensures r.None? <==> v.JArray? && JNull in v.items
    ensures !v.JArray? ==> r == Some([])
  {
    if v.JArray? then FilterNotes(v.items) else Some([])
  }

  /**
   * The one key that `validatedNotes[dateKey] = validNotes` does not store on
   * a plain object: assigning to `__proto__` calls the inherited setter, which
   * replaces the object's prototype and adds no own key.
   */
  const PROTO_KEY: string := "__proto__"

  /**
   * The validated map built from the entries, or None when some date's filter
   * throws. A `__proto__` date is filtered like any other, but its list is not stored.
   */
  function ValidatedNotes(entries: map<string, Json>): (r: Option<NotesByDate>)
    ensures r.None? <==> exists k :: k in entries && DateNotes(entries[k]).None?
    ensures r.Some? ==> NoEmptyDates(r.value) && r.value.Keys <= entries.Keys && PROTO_KEY !in r.value
  {
    if exists k :: k in entries && DateNotes(entries[k]).None? then None
    else Some(map k | k in entries && k != PROTO_KEY && DateNotes(entries[k]).value != [] :: DateNotes(entries[k]).value)
  }

  /**
   * What `loadNotesFromStorage` returns: the validated notes, and the empty
   * map when nothing is stored, the text does not parse, the payload is
   * falsy, its `notesByDate` is not of type `"object"`, or anything throws.
   */
  function LoadedNotes(stored: Stored): (m: NotesByDate)
    ensures NoEmptyDates(m) && PROTO_KEY !in m
  {
    match stored
    case NothingStored => map[]
    case Unparsable => map[]
    case Parsed(data) =>
      if !Truthy(data) then map[]
      else
        var notesByDate := Property(data, "notesByDate");
        if !TypeofObject(notesByDate) then map[]
        else if notesByDate.value == JNull then map[]
        else
          var validated := ValidatedNotes(Entries(notesByDate.value));
          if validated.None? then map[] else validated.value
  }

  /**
   * `loadNotesFromStorage()`: the structure checks, then the pass over the
   * entries of `notesByDate`; a throw anywhere is caught and gives the empty map.
   */
  method LoadNotesFromStorage(stored: Stored) returns (notes: NotesByDate)
    ensures notes == LoadedNotes(stored)
  {
    if !stored.Parsed? {
      return map[];
    }
    var data := stored.data;
    if !Truthy(data) {
      return map[];
    }
    var notesByDate := Property(data, "notesByDate");
    if !TypeofObject(notesByDate) {
      return map[];
    }
    if notesByDate.value == JNull {
      // Object.entries(null) throws.
      return map[];
    }
    var validated := ValidateEntries(Entries(notesByDate.value));
    if validated.None? {
      return map[];
    }
    return validated.value;
  }

  /**
   * The `forEach` over the entries: each date's non-empty filtered list goes
   * into `validatedNotes`; a filter that throws ends the pass (None).
   */
  method ValidateEntries(entries: map<string, Json>) returns (validated: Option<NotesByDate>)
    ensures validated == ValidatedNotes(entries)
  {
    var validatedNotes: NotesByDate := map[];
    var remaining := entries.Keys;
    while remaining != {}
      invariant remaining <= entries.Keys
      invariant forall k :: k in entries && k !in remaining ==> DateNotes(entries[k]).Some?
      invariant validatedNotes.Keys <= entries.Keys - remaining
      invariant forall k :: k in entries && k !in remaining ==>
        (k in validatedNotes <==> k != PROTO_KEY && DateNotes(entries[k]).value != [])
      invariant forall k :: k in validatedNotes ==> validatedNotes[k] == DateNotes(entries[k]).value
      decreases remaining
    {
      var dateKey :| dateKey in remaining;
      var value := entries[dateKey];
      if value.JArray? {
        var validNotes := FilterNotes(value.items);
        if validNotes.None? {
          // A null element: `note.id` throws.
          assert DateNotes(entries[dateKey]).None?;
          return None;
        }
        if |validNotes.value| > 0 && dateKey != PROTO_KEY {
          validatedNotes := validatedNotes[dateKey := validNotes.value];
        }
      }
      remaining := remaining - {dateKey};
    }
    assert validatedNotes == ValidatedNotes(entries).value;
    return Some(validatedNotes);
  }

  /** Nothing stored, an unparsable text, a falsy payload, or a `notesByDate` that is not of type `"object"` all load as no notes. */
  lemma EmptyLoads(data: Json)
    ensures LoadedNotes(NothingStored) == map[] && LoadedNotes(Unparsable) == map[]
    ensures !Truthy(data) ==> LoadedNotes(Parsed(data)) == map[]
    ensures Truthy(data) && !TypeofObject(Property(data, "notesByDate")) ==> LoadedNotes(Parsed(data)) == map[]
    ensures Truthy(data) && Property(data, "notesByDate") == Some(JNull) ==> LoadedNotes(Parsed(data)) == map[]
  {
  }

  /**
   * A single null element in any date's array makes the whole load come out
   * empty, not only that element or that date.
   */
  lemma NullElementEmptiesLoad(data: Json, dateKey: string)
    requires Truthy(data) && data.JObject? && "notesByDate" in data.fields
    requires var notesByDate := data.fields["notesByDate"];
      notesByDate.JObject? && dateKey in notesByDate.fields
      && notesByDate.fields[dateKey].JArray? && JNull in notesByDate.fields[dateKey].items
    ensures LoadedNotes(Parsed(data)) == map[]
  {
    var entries := data.fields["notesByDate"].fields;
    assert DateNotes(entries[dateKey]).None?;
  }

  /** The filter works element by element: filtering a concatenation filters each part, and a throw in either part is a throw. */
  lemma {:induction false} FilterNotesConcat(a: seq<Json>, b: seq<Json>)
    ensures FilterNotes(a + b) ==
      if FilterNotes(a).Some? && FilterNotes(b).Some? then Some(FilterNotes(a).value + FilterNotes(b).value) else None
  {
    if |a| == 0 {
      assert a + b == b;
      assert FilterNotes(a) == Some([]);
      if FilterNotes(b).Some? {
        assert [] + FilterNotes(b).value == FilterNotes(b).value;
      }
    } else {
      assert (a + b)[0] == a[0];
      assert (a + b)[1..] == a[1..] + b;
      FilterNotesConcat(a[1..], b);
      match CheckNote(a[0])
      case Throw =>
      case Skip =>
      case Keep(n) =>
        if FilterNotes(a[1..]).Some? && FilterNotes(b).Some? {
          var x, y := FilterNotes(a[1..]).value, FilterNotes(b).value;
          assert [n] + (x + y) == ([n] + x) + y;
        }
    }
  }

  /** On one element the filter keeps a well-formed note, drops anything else that is not null, and throws on null. */
  lemma FilterNotesSingle(v: Json)
    ensures CheckNote(v).Keep? ==> FilterNotes([v]) == Some([CheckNote(v).note])
    ensures CheckNote(v).Skip? ==> FilterNotes([v]) == Some([])
    ensures v == JNull ==> FilterNotes([v]) == None
  {
    assert [v][1..] == [];
    assert FilterNotes([]) == Some([]);
    if CheckNote(v).Keep? {
      assert [CheckNote(v).note] + [] == [CheckNote(v).note];
    }
  }

  /** A note as `JSON.stringify` writes it and `JSON.parse` reads it back: an object of five strings. */
  function NoteJson(n: Note): Json
  {
    JObject(map["id" := JString(n.id), "dateKey" := JString(n.dateKey), "content" := JString(n.content),
                "createdAt" := JString(n.createdAt), "updatedAt" := JString(n.updatedAt)])
  }

  /** A date's list as stored. */
  function NotesJson(notes: seq<Note>): seq<Json>
  {
    seq(|notes|, i requires 0 <= i < |notes| => NoteJson(notes[i]))
  }

  /** `{ notesByDate }`, the payload `saveNotesToStorage` writes. */
  function StoredNotesData(m: NotesByDate): Json
  {
    JObject(map["notesByDate" := JObject(map k | k in m :: JArray(NotesJson(m[k])))])
  }

  /** A stored list filters back to itself. */
  lemma {:induction false} FilterNotesOfSaved(notes: seq<Note>)
    ensures FilterNotes(NotesJson(notes)) == Some(notes)
  {
    if |notes| > 0 {
      var items := NotesJson(notes);
      assert items[1..] == NotesJson(notes[1..]);
      FilterNotesOfSaved(notes[1..]);
      CheckNoteOfSaved(notes[0]);
      assert FilterNotes(items) == Some([notes[0]] + notes[1..]);
      assert [notes[0]] + notes[1..] == notes;
    }
  }

  /** A stored note passes the filter's test as itself. */
  lemma CheckNoteOfSaved(n: Note)
    ensures CheckNote(NoteJson(n)) == Keep(n)
  {
    var f := NoteJson(n).fields;
    assert StringField(f, "id") == Some(n.id);
    assert StringField(f, "dateKey") == Some(n.dateKey);
    assert StringField(f, "content") == Some(n.content);
    assert StringField(f, "createdAt") == Some(n.createdAt);
    assert StringField(f, "updatedAt") == Some(n.updatedAt);
  }

  /**
   * Saving a map whose lists are all non-empty and then loading it back
   * gives the same map, except for a `__proto__` date, which `createNote` can
   * write and `JSON.stringify` saves but the load does not store.
   */
  lemma SaveThenLoad(m: NotesByDate)
    requires NoEmptyDates(m)
    ensures LoadedNotes(Parsed(StoredNotesData(m))) == m - {PROTO_KEY}
  {
    var entries := map k | k in m :: JArray(NotesJson(m[k]));
    var data := StoredNotesData(m);
    assert "notesByDate" in data.fields && data.fields["notesByDate"] == JObject(entries);
    LoadOfObject(data, entries);
    ValidatedOfSaved(m, entries);
  }

  /** A payload whose `notesByDate` is an object loads as the validation of that object's entries, or as nothing when it throws. */
  lemma LoadOfObject(data: Json, entries: map<string, Json>)
    requires data.JObject? && "notesByDate" in data.fields && data.fields["notesByDate"] == JObject(entries)
    ensures LoadedNotes(Parsed(data)) == if ValidatedNotes(entries).None? then map[] else ValidatedNotes(entries).value
  {
    assert Truthy(data);
    assert Property(data, "notesByDate") == Some(JObject(entries));
    assert Entries(JObject(entries)) == entries;
  }

  /**
   * When no date of the payload throws, a date other than `__proto__`
   * survives the load exactly when its value is an array holding at least one
   * accepted note, and it loads as the accepted notes in array order.
   */
  lemma LoadedDate(data: Json, entries: map<string, Json>, dateKey: string)
    requires data.JObject? && "notesByDate" in data.fields && data.fields["notesByDate"] == JObject(entries)
    requires forall k :: k in entries && entries[k].JArray? ==> JNull !in entries[k].items
    ensures dateKey in LoadedNotes(Parsed(data)) <==>
      dateKey != PROTO_KEY && dateKey in entries && entries[dateKey].JArray? && FilterNotes(entries[dateKey].items).value != []
    ensures dateKey in LoadedNotes(Parsed(data)) ==>
      LoadedNotes(Parsed(data))[dateKey] == FilterNotes(entries[dateKey].items).value
  {
    LoadOfObject(data, entries);
    assert !exists k :: k in entries && DateNotes(entries[k]).None?;
  }

  /**
   * A date holding a valid note and an object without `content` loads as that
   * date with only the valid note (as nothing when the date is `__proto__`).
   */
  lemma MissingContentDropped(data: Json, dateKey: string, good: Note, bad: Json)
    requires bad.JObject? && "content" !in bad.fields
    requires data == JObject(map["notesByDate" := JObject(map[dateKey := JArray([NoteJson(good), bad])])])
    ensures LoadedNotes(Parsed(data)) == if dateKey == PROTO_KEY then map[] else map[dateKey := [good]]
  {
    var items := [NoteJson(good), bad];
    var entries := map[dateKey := JArray(items)];
    CheckNoteOfSaved(good);
    assert "content" in NOTE_FIELDS && StringField(bad.fields, "content").None?;
    assert CheckNote(bad) == Skip;
    FilterNotesSingle(NoteJson(good));
    FilterNotesSingle(bad);
    assert items == [NoteJson(good)] + [bad];
    FilterNotesConcat([NoteJson(good)], [bad]);
    assert FilterNotes(items) == Some([good]);
    LoadedDate(data, entries, dateKey);
    var m := LoadedNotes(Parsed(data));
    forall k | k in m
      ensures k == dateKey
    {
      LoadedDate(data, entries, k);
    }
    if dateKey == PROTO_KEY {
      assert m == map[];
    } else {
      assert m == map[dateKey := [good]];
    }
  }

  /** The validation of the stored entries gives back the map they were written from, less a `__proto__` date. */
  lemma ValidatedOfSaved(m: NotesByDate, entries: map<string, Json>)
    requires NoEmptyDates(m)
    requires entries.Keys == m.Keys && forall k :: k in m ==> entries[k] == JArray(NotesJson(m[k]))
    ensures ValidatedNotes(entries) == Some(m - {PROTO_KEY})
  {
    forall k | k in entries
      ensures DateNotes(entries[k]) == Some(m[k])
    {
      FilterNotesOfSaved(m[k]);
    }
    ValidatedWithoutThrow(entries);
    var all := map k | k in entries && k != PROTO_KEY :: DateNotes(entries[k]).value;
    assert forall k :: k in all <==> k in m && k != PROTO_KEY;
    assert forall k :: k in all ==> all[k] == m[k];
    WithoutProtoKey(m, all);
  }

  /** A map holding exactly the other keys of `m`, with the same values, is `m` less `__proto__`. */
  lemma WithoutProtoKey(m: NotesByDate, all: NotesByDate)
    requires forall k :: k in all <==> k in m && k != PROTO_KEY
    requires forall k :: k in all ==> all[k] == m[k]
    ensures all == m - {PROTO_KEY}
  {
    assert all.Keys == (m - {PROTO_KEY}).Keys;
  }

  /** When no date throws and none filters to nothing, validation keeps every date but `__proto__` with its filtered notes. */
  lemma ValidatedWithoutThrow(entries: map<string, Json>)
    requires forall k :: k in entries ==> DateNotes(entries[k]).Some? && DateNotes(entries[k]).value != []
    ensures ValidatedNotes(entries) == Some(map k | k in entries && k != PROTO_KEY :: DateNotes(entries[k]).value)
  {
    assert !exists k :: k in entries && DateNotes(entries[k]).None?;
    var kept := map k | k in entries && k != PROTO_KEY && DateNotes(entries[k]).value != [] :: DateNotes(entries[k]).value;
    var all := map k | k in entries && k != PROTO_KEY :: DateNotes(entries[k]).value;
    assert kept.Keys == all.Keys;
    assert ValidatedNotes(entries) == Some(kept);
  }

  /** The template `generateNoteId` fills in. */
  const UUID_TEMPLATE := "xxxxxxxx-xxxx-4xxx-yxxx-xxxxxxxxxxxx"

  /** A value of `Math.random() * 16 | 0`. */
  predicate IsNibble(r: int) { 0 <= r < 16 }

  /** The replacement of one template character, given the draw `r` made for it: `x` by `r`, `y` by `r & 0x3 | 0x8`. */
  function Replace(c: char, r: int): char
    requires IsNibble(r)
  {
    if c == 'x' then HexDigit(r)
    else if c == 'y' then HexDigit(r % 4 + 8)
    else c
  }

  /**
   * `generateNoteId()`: the template with every `x` and `y` replaced;
   * `random[i]` is the draw made for position `i` (fixed positions draw nothing).
   */
  function GenerateNoteId(random: seq<int>): (id: string)
    requires |random| == |UUID_TEMPLATE| && forall i :: 0 <= i < |random| ==> IsNibble(random[i])
    ensures IsUuidV4(id)
  {
    seq(|UUID_TEMPLATE|, i requires 0 <= i < |UUID_TEMPLATE| => Replace(UUID_TEMPLATE[i], random[i]))
  }

  /**
   * The textual form of a version-4 UUID (section 4.4 of RFC 4122) in lower
   * case: 36 characters, hyphens at 8, 13, 18 and 23, the version digit `4`
   * at 14, the variant digit `8`, `9`, `a` or `b` at 19, hex digits elsewhere.
   */
  predicate IsUuidV4(id: string)
  {
    && |id| == 36
    && forall i :: 0 <= i < 36 ==>
         if i == 8 || i == 13 || i == 18 || i == 23 then id[i] == '-'
         else if i == 14 then id[i] == '4'
         else if i == 19 then id[i] == '8' || id[i] == '9' || id[i] == 'a' || id[i] == 'b'
         else IsLowerHex(id[i])
  }

  /** The value of a lower-case hex digit. */
  function HexValue(c: char): (v: int)
    requires IsLowerHex(c)
    ensures IsNibble(v) && HexDigit(v) == c
  {
    if c <= '9' then c as int - '0' as int else c as int - 'a' as int + 10
  }

  /** Every lower-case version-4 UUID is an id `generateNoteId` can produce, so the shape above is exactly its range. */
  lemma EveryUuidV4IsGenerated(id: string)
    requires IsUuidV4(id)
    ensures exists random: seq<int> :: |random| == |UUID_TEMPLATE| && (forall i :: 0 <= i < |random| ==> IsNibble(random[i]))
                                    && GenerateNoteId(random) == id
  {
    var random := seq(36, i requires 0 <= i < 36 =>
      if i == 19 then HexValue(id[i]) - 8
      else if IsLowerHex(id[i]) then HexValue(id[i])
      else 0);
    forall i | 0 <= i < 36
      ensures IsNibble(random[i]) && Replace(UUID_TEMPLATE[i], random[i]) == id[i]
    {
      if i == 19 {
        assert 8 <= HexValue(id[i]) < 12;
      }
    }
    assert GenerateNoteId(random) == id;
  }
}
