/** The note store of the new-tab page: the `notes` object and the active
    note id, switching notes (`loadNote`), the editor's `input` handler,
    restoring stored notes, and the search filter of the note list
    (`renderList`). */
module Notes {
  import opened JsObject
  import opened JsString
  import opened TextArea

  /** A note as stored: its text and the caret offset saved with it. The
      offset may be absent from a stored note, hence `note.cursor ?? ...`. */
  datatype Note = Note(content: string, cursor: Option<nat>)

  /** `{ content: "", cursor: 0 }` */
  const EmptyNote: Note := Note([], Some(0))

  /** `Daily/${new Date().toISOString().slice(0, 10)}`, given the ISO
      timestamp: the date part of the clock reading, behind a fixed prefix. */
  function TodayId(iso: string): (id: string)
    ensures StartsWith(id, "Daily/")
    ensures |id| == 6 + (if |iso| < 10 then |iso| else 10)
    ensures id[6..] == iso[..|id| - 6]
  {
    "Daily/" + (if |iso| < 10 then iso else iso[..10])
  }

  /** The property name `notes[activeNoteId]` looks up: `null` reads "null". */
  function KeyOf(id: Option<string>): (key: string)
    ensures id.Some? ==> key == id.value
    ensures id.None? ==> key == "null"
  {
    match id
    case Some(s) => s
    case None => "null"
  }

  /** Every stored caret lies within its note's text. */
  ghost predicate CaretsInText(notes: Table<Note>) {
    forall k :: k in notes.entries && notes.entries[k].cursor.Some? ==>
      notes.entries[k].cursor.value <= |notes.entries[k].content|
  }

  /** The caret `loadNote` restores, `note.cursor ?? editor.value.length`,
      after `setSelectionRange` has clamped it to the text. */
  function CaretFor(note: Note): (pos: nat)
    ensures pos <= |note.content|
    ensures note.cursor.None? ==> pos == |note.content|
    ensures note.cursor.Some? && note.cursor.value <= |note.content| ==> pos == note.cursor.value
    ensures note.cursor.Some? && note.cursor.value > |note.content| ==> pos == |note.content|
  {
    Min(note.cursor.GetOr(|note.content|), |note.content|)
  }

  /** The notes after `loadNote(id)`: a missing note is created empty, and an
      existing one is stored back under its own key. */
  function Switched(notes: Table<Note>, id: string): (r: Table<Note>)
    ensures id in r.entries
    ensures id in notes.entries ==> r == notes
    ensures id !in notes.entries ==> r.entries[id] == EmptyNote && r.keys == notes.keys + [id]
    ensures forall k :: k != id ==> (k in r.entries <==> k in notes.entries)
    ensures forall k :: k != id && k in notes.entries ==> r.entries[k] == notes.entries[k]
    ensures CaretsInText(notes) ==> CaretsInText(r)
  {
    var note := if id in notes.entries then notes.entries[id] else EmptyNote;
    Put(notes, id, note)
  }

  /** Switching to the same note again changes nothing more. */
  lemma SwitchIdempotent(notes: Table<Note>, id: string)
    ensures Switched(Switched(notes, id), id) == Switched(notes, id)
    ensures Switched(notes, id).entries[id] ==
            (if id in notes.entries then notes.entries[id] else EmptyNote)
  {
  }

  /** The notes after the `input` handler has stored the editor's text and
      caret into note `id`. */
  function Edited(notes: Table<Note>, id: string, content: string, cursor: nat): (r: Table<Note>)
    requires id in notes.entries
    ensures r.keys == notes.keys && r.entries.Keys == notes.entries.Keys
    ensures r.entries[id] == Note(content, Some(cursor))
    ensures forall k :: k in notes.entries && k != id ==> r.entries[k] == notes.entries[k]
    ensures CaretsInText(notes) && cursor <= |content| ==> CaretsInText(r)
  {
    Put(notes, id, Note(content, Some(cursor)))
  }

  /** `data.activeNoteId || todayId()`: the empty string is falsy, so an
      empty stored id also falls back to today's. */
  function RestoredActiveId(stored: Option<string>, today: string): (id: string)
    ensures stored.Some? && stored.value != [] ==> id == stored.value
    ensures stored.None? || stored.value == [] ==> id == today
    ensures today != [] ==> id != []
  {
    if stored.Some? && stored.value != [] then stored.value else today
  }

  /** The notes and active id the stored-state callback settles on: missing
      notes read as `{}`, and the active note is created empty when absent. */
  function RestoredNotes(stored: Option<Table<Note>>, active: string): (r: Table<Note>)
    ensures active in r.entries
    ensures stored.None? ==> r.keys == [active] && r.entries == map[active := EmptyNote]
    ensures stored.Some? ==> forall k :: k in stored.value.entries ==> k in r.entries && r.entries[k] == stored.value.entries[k]
    ensures forall k :: k in r.entries && k != active ==> stored.Some? && k in stored.value.entries
    ensures active in stored.GetOr(EmptyTable()).entries ==> r == stored.GetOr(EmptyTable())
    ensures active !in stored.GetOr(EmptyTable()).entries ==>
              r.entries[active] == EmptyNote && r.keys == stored.GetOr(EmptyTable()).keys + [active]
  {
    Switched(stored.GetOr(EmptyTable()), active)
  }

  /** The filter of `renderList`: a note is listed when its lower-cased text
      includes the filter string. */
  function Matches(note: Note, filter: string): (b: bool)
    ensures b <==> Occurs(ToLower(note.content), filter)
  {
    IncludesIffOccurs(ToLower(note.content), filter);
    Includes(ToLower(note.content), filter)
  }

  /** `a` is `b` with some elements left out, the rest in their order. */
  ghost predicate IsSubsequence(a: seq<string>, b: seq<string>)
    decreases |b|
  {
    if b == [] then a == []
    else (a != [] && a[0] == b[0] && IsSubsequence(a[1..], b[1..])) || IsSubsequence(a, b[1..])
  }

  /** `keys.filter(id => notes[id].content.toLowerCase().includes(filter))` */
  function FilterKeys(keys: seq<string>, entries: map<string, Note>, filter: string): (ids: seq<string>)
    requires forall k :: k in keys ==> k in entries
    ensures forall id :: id in ids <==> id in keys && Matches(entries[id], filter)
    ensures IsSubsequence(ids, keys)
    ensures Distinct(keys) ==> Distinct(ids)
  {
    if keys == [] then []
    else
      var rest := FilterKeys(keys[1..], entries, filter);
      if Matches(entries[keys[0]], filter) then
        assert Distinct(keys) ==> keys[0] !in keys[1..];
        [keys[0]] + rest
      else rest
  }

  /** The ids `renderList(filter)` lists, in `Object.keys(notes)` order. */
  function Search(notes: Table<Note>, filter: string): (ids: seq<string>)
    ensures forall id :: id in ids <==> id in notes.entries && Matches(notes.entries[id], filter)
    ensures IsSubsequence(ids, notes.keys)
    ensures Distinct(ids)
  {
    FilterKeys(notes.keys, notes.entries, filter)
  }

  /** The search box's `input` handler lower-cases the query first. */
  function OnSearch(notes: Table<Note>, query: string): (ids: seq<string>)
    ensures forall id :: id in ids <==> id in notes.entries && Includes(ToLower(notes.entries[id].content), ToLower(query))
    ensures IsSubsequence(ids, notes.keys) && Distinct(ids)
  {
    Search(notes, ToLower(query))
  }

  /** The search is case-insensitive in its query. */
  lemma SearchIgnoresQueryCase(notes: Table<Note>, query: string)
    ensures OnSearch(notes, query) == OnSearch(notes, ToLower(query))
  {
    ToLowerIdempotent(query);
  }

  lemma {:induction false} FilterEmptyKeepsAll(keys: seq<string>, entries: map<string, Note>)
    requires forall k :: k in keys ==> k in entries
    ensures FilterKeys(keys, entries, []) == keys
  {
    if keys != [] {
      IncludesEmpty(ToLower(entries[keys[0]].content));
      FilterEmptyKeepsAll(keys[1..], entries);
    }
  }

  /** An empty filter lists every note, in key order. */
  lemma SearchEmptyListsAll(notes: Table<Note>)
    ensures Search(notes, []) == notes.keys
  {
    FilterEmptyKeepsAll(notes.keys, notes.entries);
  }

  /** What `saveNotes` writes to `chrome.storage.local`. */
  datatype NotesSnapshot = NotesSnapshot(notes: Table<Note>, activeNoteId: Option<string>)

  class NoteStore {
    /** `notes` */
    var notes: Table<Note>
    /** `activeNoteId`: `null` until the stored state has been read. */
    var activeNoteId: Option<string>
    /** Every `saveNotes` write so far, oldest first. */
    ghost var saved: seq<NotesSnapshot>

    /** The active id names a stored note. */
    ghost predicate Ready()
      reads this
    {
      activeNoteId.Some? && activeNoteId.value in notes.entries
    }

    /** The last write holds the current notes and active id. */
    ghost predicate Persisted()
      reads this
    {
      saved != [] && saved[|saved| - 1] == NotesSnapshot(notes, activeNoteId)
    }

    constructor ()
      ensures notes == EmptyTable() && activeNoteId == None && saved == []
    {
      notes := EmptyTable();
      activeNoteId := None;
      saved := [];
    }

    /** `saveNotes()` */
    method SaveNotes()
      modifies this`saved
      ensures saved == old(saved) + [NotesSnapshot(notes, activeNoteId)]
    {
      saved := saved + [NotesSnapshot(notes, activeNoteId)];
    }

    /** `loadNote(id)`: make `id` active, creating it empty if it is new, show
        its text and caret in the editor, and save. */
    method LoadNote(id: string, editor: Editor)
      modifies this, editor
      ensures activeNoteId == Some(id)
      ensures notes == Switched(old(notes), id)
      ensures saved == old(saved) + [NotesSnapshot(notes, activeNoteId)]
      ensures Ready() && Persisted()
      ensures editor.Valid() && editor.value == notes.entries[id].content
      ensures editor.selectionStart == CaretFor(notes.entries[id]) == editor.selectionEnd
    {
      activeNoteId := Some(id);
      var note := if id in notes.entries then notes.entries[id] else EmptyNote;
      notes := Put(notes, id, note);
      editor.SetValue(note.content);
      var pos := note.cursor.GetOr(|editor.value|);
      editor.SetSelectionRange(pos, pos);
      SaveNotes();
    }

    /** The editor's `input` handler: store the editor's text and caret into
        the active note and save. Before the stored state has arrived there is
        no such note, the handler throws, and nothing changes. */
    method OnInput(editor: Editor) returns (ok: bool)
      requires editor.Valid()
      modifies this`notes, this`saved
      ensures activeNoteId == old(activeNoteId)
      ensures ok <==> KeyOf(activeNoteId) in old(notes).entries
      ensures ok ==> notes == Edited(old(notes), KeyOf(activeNoteId), editor.value, editor.selectionStart)
      ensures ok ==> saved == old(saved) + [NotesSnapshot(notes, activeNoteId)] && Persisted()
      ensures !ok ==> notes == old(notes) && saved == old(saved)
      ensures old(Ready()) ==> ok && Ready()
      ensures CaretsInText(old(notes)) ==> CaretsInText(notes)
    {
      var key := KeyOf(activeNoteId);
      if key !in notes.entries {
        return false;
      }
      notes := Put(notes, key, Note(editor.value, Some(editor.selectionStart)));
      SaveNotes();
      ok := true;
    }

    /** The note half of the stored-state callback: take the stored notes
        (or `{}`) and active id (or today's), make sure the active note exists,
        then `loadNote` it. */
    method Restore(stored: Option<Table<Note>>, storedActive: Option<string>, today: string, editor: Editor)
      modifies this, editor
      ensures activeNoteId == Some(RestoredActiveId(storedActive, today))
      ensures notes == RestoredNotes(stored, RestoredActiveId(storedActive, today))
      ensures saved == old(saved) + [NotesSnapshot(notes, activeNoteId)]
      ensures Ready() && Persisted()
      ensures editor.Valid() && editor.value == notes.entries[activeNoteId.value].content
      ensures editor.selectionStart == CaretFor(notes.entries[activeNoteId.value]) == editor.selectionEnd
    {
      notes := stored.GetOr(EmptyTable());
      var id := RestoredActiveId(storedActive, today);
      activeNoteId := Some(id);
      if id !in notes.entries {
        notes := Put(notes, id, EmptyNote);
      }
      SwitchIdempotent(stored.GetOr(EmptyTable()), id);
      LoadNote(id, editor);
    }
  }
}
