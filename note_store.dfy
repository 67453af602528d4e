/** The note store of EnhancedNotes: the `Note` record, the four reducer
    actions and `notesReducer`, a pure transition function over the list
    of notes. */
module NoteStore {
  import opened SeqFilter

  /** A note as the server returns it. */
  datatype Note = Note(id: string, title: string, content: string, createdAt: string, updatedAt: string)

  datatype NotesAction =
    | AddNote(note: Note)
    | UpdateNote(note: Note)
    | DeleteNote(id: string)
    | SetNotes(notes: seq<Note>)

  /** The predicate of `DELETE_NOTE`'s filter: the note does not carry `id`. */
  function OtherThan(id: string): Note -> bool {
    (n: Note) => n.id != id
  }

  /** `UPDATE_NOTE`'s map: every note with the payload's id becomes the
      payload, every other note stays. */
  function Replace(state: seq<Note>, note: Note): (r: seq<Note>)
    ensures |r| == |state|
    ensures forall n :: n in r ==> n in state || n == note
  {
    if state == [] then []
    else [if state[0].id == note.id then note else state[0]] + Replace(state[1..], note)
  }

  /** `notesReducer`. */
  function Reduce(state: seq<Note>, action: NotesAction): (r: seq<Note>)
    ensures action.AddNote? ==> |r| == |state| + 1
    ensures action.UpdateNote? ==> |r| == |state|
    ensures action.DeleteNote? ==> |r| <= |state| && forall n :: n in r ==> n in state
  {
    match action
    case AddNote(note) => state + [note]
    case UpdateNote(note) => Replace(state, note)
    case DeleteNote(id) => Filter(state, OtherThan(id))
    case SetNotes(notes) => notes
  }

  /** The ids of the notes, in order. */
  function Ids(state: seq<Note>): (r: seq<string>)
    ensures |r| == |state|
    ensures forall i :: 0 <= i < |state| ==> r[i] == state[i].id
  {
    if state == [] then [] else [state[0].id] + Ids(state[1..])
  }

  /** True when `id` is the id of some note in `state`. */
  predicate HasId(state: seq<Note>, id: string) {
    exists i :: 0 <= i < |state| && state[i].id == id
  }

  /** At most one note per id: the collection invariant the store is meant
      to keep. */
  predicate UniqueIds(state: seq<Note>) {
    forall i, j :: 0 <= i < j < |state| ==> state[i].id != state[j].id
  }

  // ---------------------------------------------------------------- ADD_NOTE

  /** `ADD_NOTE` appends the payload: one more note, at the end, with every
      earlier note at its old position. A duplicate id is not rejected. */
  lemma AddAppends(state: seq<Note>, note: Note)
    ensures var r := Reduce(state, AddNote(note));
      |r| == |state| + 1 && r[|state|] == note &&
      (forall i :: 0 <= i < |state| ==> r[i] == state[i])
  {
  }

  /** Adding keeps the ids unique exactly when the new id is fresh. */
  lemma AddUniqueIff(state: seq<Note>, note: Note)
    requires UniqueIds(state)
    ensures UniqueIds(Reduce(state, AddNote(note))) <==> !HasId(state, note.id)
  {
    var r := Reduce(state, AddNote(note));
    if HasId(state, note.id) {
      var i :| 0 <= i < |state| && state[i].id == note.id;
      assert r[i].id == r[|state|].id;
    }
  }

  // ------------------------------------------------------------- UPDATE_NOTE

  /** Pointwise meaning of `UPDATE_NOTE`: the length is kept, a note whose id
      matches the payload's becomes the payload, every other note is kept. */
  lemma {:induction false} UpdateAt(state: seq<Note>, note: Note, i: int)
    requires 0 <= i < |state|
    ensures |Reduce(state, UpdateNote(note))| == |state|
    ensures Reduce(state, UpdateNote(note))[i] == if state[i].id == note.id then note else state[i]
  {
    if i > 0 {
      UpdateAt(state[1..], note, i - 1);
    } else {
      UpdateLength(state[1..], note);
    }
  }

  lemma {:induction false} UpdateLength(state: seq<Note>, note: Note)
    ensures |Replace(state, note)| == |state|
  {
    if state != [] {
      UpdateLength(state[1..], note);
    }
  }

  /** `UPDATE_NOTE` with an id that no note carries leaves the list as it was. */
  lemma {:induction false} UpdateMissingIsNoOp(state: seq<Note>, note: Note)
    requires !HasId(state, note.id)
    ensures Reduce(state, UpdateNote(note)) == state
  {
    if state != [] {
      assert state[0].id != note.id;
      assert !HasId(state[1..], note.id);
      UpdateMissingIsNoOp(state[1..], note);
    }
  }

  /** `UPDATE_NOTE` never changes which ids are present, nor their order. */
  lemma UpdateKeepsIds(state: seq<Note>, note: Note)
    ensures Ids(Reduce(state, UpdateNote(note))) == Ids(state)
  {
    UpdateLength(state, note);
    forall i | 0 <= i < |state|
      ensures Ids(Reduce(state, UpdateNote(note)))[i] == Ids(state)[i]
    {
      UpdateAt(state, note, i);
    }
  }

  /** Hence `UPDATE_NOTE` keeps the ids unique. */
  lemma UpdateKeepsUnique(state: seq<Note>, note: Note)
    requires UniqueIds(state)
    ensures UniqueIds(Reduce(state, UpdateNote(note)))
  {
    var r := Reduce(state, UpdateNote(note));
    UpdateKeepsIds(state, note);
    assert forall i :: 0 <= i < |r| ==> r[i].id == Ids(r)[i] == Ids(state)[i] == state[i].id;
  }

  // ------------------------------------------------------------- DELETE_NOTE

  /** `DELETE_NOTE` leaves no note with that id, keeps every other note
      (every copy of it) and keeps the survivors in their original relative
      order. */
  lemma DeleteRemoves(state: seq<Note>, id: string)
    ensures var r := Reduce(state, DeleteNote(id));
      !HasId(r, id) &&
      (forall n :: n in state && n.id != id ==> n in r) &&
      (forall n :: n in r ==> n in state) &&
      (forall n :: multiset(r)[n] == if n.id != id then multiset(state)[n] else 0) &&
      IsSubsequence(r, state)
  {
    var r := Reduce(state, DeleteNote(id));
    FilterIsSubsequence(state, OtherThan(id));
    forall n: Note
      ensures multiset(r)[n] == if n.id != id then multiset(state)[n] else 0
    {
      FilterCount(state, OtherThan(id), n);
    }
    forall n | n in state && n.id != id
      ensures n in r
    {
      FilterMembership(state, OtherThan(id), n);
    }
    forall i | 0 <= i < |r|
      ensures r[i].id != id
    {
      assert r[i] in r;
    }
  }

  /** `DELETE_NOTE` with an id that no note carries is a no-op. */
  lemma DeleteMissingIsNoOp(state: seq<Note>, id: string)
    requires !HasId(state, id)
    ensures Reduce(state, DeleteNote(id)) == state
  {
    forall n | n in state
      ensures OtherThan(id)(n)
    {
      var i :| 0 <= i < |state| && state[i] == n;
    }
    FilterAll(state, OtherThan(id));
  }

  /** Deleting the same id twice is deleting it once. */
  lemma DeleteIdempotent(state: seq<Note>, id: string)
    ensures Reduce(Reduce(state, DeleteNote(id)), DeleteNote(id)) == Reduce(state, DeleteNote(id))
  {
    FilterIdempotent(state, OtherThan(id));
  }

  /** A subsequence of a list with unique ids has unique ids. */
  lemma {:induction false} SubsequenceKeepsUnique(a: seq<Note>, b: seq<Note>)
    requires IsSubsequence(a, b) && UniqueIds(b)
    ensures UniqueIds(a)
    decreases |b|
  {
    if a != [] {
      assert b != [];
      if a[0] == b[0] && IsSubsequence(a[1..], b[1..]) {
        SubsequenceKeepsUnique(a[1..], b[1..]);
        forall j | 0 < j < |a|
          ensures a[0].id != a[j].id
        {
          SubsequenceMembers(a[1..], b[1..], a[j]);
          var k :| 0 <= k < |b[1..]| && b[1..][k] == a[j];
          assert b[k + 1] == a[j];
        }
        forall i, j | 0 <= i < j < |a|
          ensures a[i].id != a[j].id
        {
          if i > 0 {
            assert a[1..][i - 1] == a[i] && a[1..][j - 1] == a[j];
          }
        }
      } else {
        SubsequenceKeepsUnique(a, b[1..]);
      }
    }
  }

  /** `DELETE_NOTE` keeps the ids unique. */
  lemma DeleteKeepsUnique(state: seq<Note>, id: string)
    requires UniqueIds(state)
    ensures UniqueIds(Reduce(state, DeleteNote(id)))
  {
    FilterIsSubsequence(state, OtherThan(id));
    SubsequenceKeepsUnique(Filter(state, OtherThan(id)), state);
  }

  // --------------------------------------------------------------- SET_NOTES

  /** `SET_NOTES` yields exactly its payload, whatever the prior state. */
  lemma SetReplacesAll(state: seq<Note>, other: seq<Note>, notes: seq<Note>)
    ensures Reduce(state, SetNotes(notes)) == notes
    ensures Reduce(state, SetNotes(notes)) == Reduce(other, SetNotes(notes))
  {
  }

  // ------------------------------------------------------- combined actions

  /** Adding a note with a fresh id and then deleting that id restores the
      original list. */
  lemma AddThenDeleteRestores(state: seq<Note>, note: Note)
    requires !HasId(state, note.id)
    ensures Reduce(Reduce(state, AddNote(note)), DeleteNote(note.id)) == state
  {
    FilterConcat(state, [note], OtherThan(note.id));
    DeleteMissingIsNoOp(state, note.id);
    assert Filter([note], OtherThan(note.id)) == [] + Filter([], OtherThan(note.id));
  }

  /** Adding a note whose id is already present and then deleting that id
      removes the older note too: the round trip above needs a fresh id. */
  lemma AddThenDeleteDuplicateLoses(state: seq<Note>, note: Note)
    requires HasId(state, note.id)
    ensures |Reduce(Reduce(state, AddNote(note)), DeleteNote(note.id))| < |state|
  {
    var i :| 0 <= i < |state| && state[i].id == note.id;
    FilterConcat(state, [note], OtherThan(note.id));
    assert Filter([note], OtherThan(note.id)) == [] + Filter([], OtherThan(note.id));
    FilterCount(state, OtherThan(note.id), state[i]);
    assert state[i] in multiset(state);
    FilterShorter(state, OtherThan(note.id), state[i]);
  }

  /** A save that resolves after the note was deleted does not bring it
      back: `UPDATE_NOTE` after `DELETE_NOTE` of the same id changes nothing. */
  lemma UpdateAfterDeleteDoesNotReinsert(state: seq<Note>, note: Note)
    ensures Reduce(Reduce(state, DeleteNote(note.id)), UpdateNote(note)) == Reduce(state, DeleteNote(note.id))
    ensures !HasId(Reduce(Reduce(state, DeleteNote(note.id)), UpdateNote(note)), note.id)
  {
    DeleteRemoves(state, note.id);
    UpdateMissingIsNoOp(Reduce(state, DeleteNote(note.id)), note);
  }

  /** `UPDATE_NOTE` and `DELETE_NOTE` commute, whatever their ids, so a save
      and a delete that resolve in either order leave the same list. */
  lemma {:induction false} UpdateDeleteCommute(state: seq<Note>, note: Note, id: string)
    ensures Reduce(Reduce(state, UpdateNote(note)), DeleteNote(id)) ==
            Reduce(Reduce(state, DeleteNote(id)), UpdateNote(note))
  {
    if state != [] {
      UpdateDeleteCommute(state[1..], note, id);
      var h := if state[0].id == note.id then note else state[0];
      var p := OtherThan(id);
      assert Replace(state, note) == [h] + Replace(state[1..], note);
      FilterConcat([h], Replace(state[1..], note), p);
      assert Filter([h], p) == (if p(h) then [h] else []) + Filter([], p);
      var d := if p(state[0]) then [state[0]] else [];
      assert Filter(state, p) == d + Filter(state[1..], p);
      ReplaceConcat(d, Filter(state[1..], p), note);
      if p(state[0]) {
        assert Replace(d, note) == [h] + Replace([], note);
        assert p(h) by {
          if state[0].id == note.id { assert h == note; assert note.id == state[0].id; }
        }
      } else {
        assert state[0].id == id;
        assert !p(h) by {
          if state[0].id == note.id { assert h == note; assert note.id == id; }
        }
      }
    }
  }

  /** `UPDATE_NOTE`'s map distributes over concatenation. */
  lemma {:induction false} ReplaceConcat(a: seq<Note>, b: seq<Note>, note: Note)
    ensures Replace(a + b, note) == Replace(a, note) + Replace(b, note)
  {
    if a == [] {
      assert a + b == b;
    } else {
      assert (a + b)[0] == a[0];
      assert (a + b)[1..] == a[1..] + b;
      ReplaceConcat(a[1..], b, note);
    }
  }

  /** Deletes commute with each other. */
  lemma DeleteDeleteCommute(state: seq<Note>, a: string, b: string)
    ensures Reduce(Reduce(state, DeleteNote(a)), DeleteNote(b)) ==
            Reduce(Reduce(state, DeleteNote(b)), DeleteNote(a))
  {
    FilterCommute(state, OtherThan(a), OtherThan(b));
  }
}
