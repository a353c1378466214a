/**
 * The note table of the notes service: a map from note ID to `Note`
 * (main.go:52-55), written by createNote and deleteNote and read whole by
 * getAllNotes.
 */
module NoteTable {
  import opened Types

  type Notes = map<uint32, Note>

  /** Every note is stored under its own ID. */
  predicate KeysMatchIds(notes: Notes) {
    forall k | k in notes :: notes[k].id == k
  }

  /** The ID createNote picks: `uint32(len(notes) + 1)`, derived from the table's size. */
  function NextNoteId(notes: Notes): uint32 {
    ToU32(|notes| + 1)
  }

  /** The table after createNote, and the ID createNote returns. */
  datatype Created = Created(notes: Notes, id: uint32)

  /**
   * createNote: writes a note with the next ID and the given text under that
   * ID. The write is unconditional: if the ID is already in use, the note
   * stored there is replaced and the table does not grow.
   */
  function Create(notes: Notes, text: string): (r: Created)
    ensures r.id == NextNoteId(notes)
    ensures r.id in r.notes && r.notes[r.id] == Note(r.id, text)
    ensures forall k | k != r.id :: (k in r.notes <==> k in notes) && (k in notes ==> r.notes[k] == notes[k])
    ensures |r.notes| == if r.id in notes then |notes| else |notes| + 1
    ensures KeysMatchIds(notes) ==> KeysMatchIds(r.notes)
  {
    var id := NextNoteId(notes);
    Created(notes[id := Note(id, text)], id)
  }

  /** deleteNote: `None` (not found) for an absent ID, otherwise the table without it. */
  function Delete(notes: Notes, id: uint32): (r: Option<Notes>)
    ensures r.None? <==> id !in notes
    ensures r.Some? ==>
      && r.value.Keys == notes.Keys - {id}
      && |r.value| == |notes| - 1
      && (forall k | k in r.value :: r.value[k] == notes[k])
    ensures r.Some? && KeysMatchIds(notes) ==> KeysMatchIds(r.value)
  {
    if id !in notes then None
    else
      var rest := notes - {id};
      assert notes.Keys == rest.Keys + {id};
      Some(rest)
  }

  lemma RemoveShrinks(m: Notes, k: uint32)
    requires k in m
    ensures |m - {k}| == |m| - 1
  {
    assert m.Keys == (m - {k}).Keys + {k};
  }

  lemma RemoveCommutes(m: Notes, j: uint32, k: uint32)
    ensures m - {j} - {k} == m - {k} - {j}
  {
    assert (m - {j} - {k}).Keys == (m - {k} - {j}).Keys;
  }

  /**
   * The notes of a table as a multiset, one occurrence per key: what
   * getAllNotes returns, up to the order of Go's map iteration.
   */
  ghost function ValuesBag(m: Notes): multiset<Note>
    decreases |m|
  {
    if m == map[] then multiset{}
    else
      var k :| k in m;
      RemoveShrinks(m, k);
      multiset{m[k]} + ValuesBag(m - {k})
  }

  /** The multiset does not depend on which key is taken out first. */
  lemma {:induction false} ValuesBagRemove(m: Notes, k: uint32)
    requires k in m
    ensures ValuesBag(m) == multiset{m[k]} + ValuesBag(m - {k})
    decreases |m|
  {
    assert m != map[];
    var j :| j in m && ValuesBag(m) == multiset{m[j]} + ValuesBag(m - {j});
    if j != k {
      var withoutJ, withoutK := m - {j}, m - {k};
      RemoveShrinks(m, j);
      RemoveShrinks(m, k);
      ValuesBagRemove(withoutJ, k);
      ValuesBagRemove(withoutK, j);
      RemoveCommutes(m, j, k);
      calc {
        ValuesBag(m);
        multiset{m[j]} + ValuesBag(withoutJ);
        multiset{m[j]} + (multiset{m[k]} + ValuesBag(withoutJ - {k}));
        multiset{m[k]} + (multiset{m[j]} + ValuesBag(withoutK - {j}));
        multiset{m[k]} + ValuesBag(withoutK);
      }
    }
  }

  lemma ValuesBagSingleton(id: uint32, n: Note)
    ensures ValuesBag(map[id := n]) == multiset{n}
  {
    var m := map[id := n];
    ValuesBagRemove(m, id);
    assert m - {id} == map[];
  }

  /** One element per key. */
  lemma {:induction false} ValuesBagSize(m: Notes)
    ensures |ValuesBag(m)| == |m|
    decreases |m|
  {
    if m != map[] {
      var k :| k in m;
      ValuesBagRemove(m, k);
      RemoveShrinks(m, k);
      ValuesBagSize(m - {k});
    }
  }

  /** A note is in the multiset exactly when some key holds it. */
  lemma {:induction false} ValuesBagHas(m: Notes, n: Note)
    ensures n in ValuesBag(m) <==> n in m.Values
    decreases |m|
  {
    if m != map[] {
      var k :| k in m;
      ValuesBagRemove(m, k);
      RemoveShrinks(m, k);
      ValuesBagHas(m - {k}, n);
      if n in m.Values && n != m[k] {
        var j :| j in m && m[j] == n;
        assert j in m - {k};
      }
    }
  }

  /**
   * Once a note is deleted, no note with its ID is left to list: the
   * multiset of the remaining notes holds none with that ID.
   */
  lemma DeletedNoteNotListed(notes: Notes, id: uint32, n: Note)
    requires KeysMatchIds(notes)
    requires id in notes
    requires n in ValuesBag(Delete(notes, id).value)
    ensures n.id != id
  {
    ValuesBagHas(Delete(notes, id).value, n);
  }

  /** The table built by creating one note per text, in order, starting from an empty table. */
  function CreateAll(texts: seq<string>): Notes
    decreases |texts|
  {
    if texts == [] then map[] else Create(CreateAll(texts[..|texts| - 1]), texts[|texts| - 1]).notes
  }

  /** The table holds exactly the IDs 1..n, each note under its own ID. */
  ghost predicate Dense(notes: Notes, n: nat) {
    && |notes| == n
    && (forall k: uint32 | 1 <= k as int <= n :: k in notes)
    && (forall k | k in notes :: 1 <= k as int <= n && notes[k].id == k)
  }

  /**
   * With creates only (no delete), the i-th create (from 1) returns ID i, the
   * table's IDs are exactly 1..n, and note i holds the i-th text: every new
   * ID is one not yet in use.
   */
  lemma {:induction false} SequentialCreatesDense(texts: seq<string>)
    requires |texts| < U32_MODULUS
    ensures Dense(CreateAll(texts), |texts|)
    ensures forall k | k in CreateAll(texts) :: CreateAll(texts)[k].text == texts[k - 1]
    decreases |texts|
  {
    if texts != [] {
      var n := |texts| - 1;
      var prefix := texts[..n];
      var before := CreateAll(prefix);
      SequentialCreatesDense(prefix);
      var r := Create(before, texts[n]);
      assert CreateAll(texts) == r.notes;
      assert r.id as int == n + 1 && r.id !in before;
      forall k: uint32 | 1 <= k as int <= n + 1
        ensures k in r.notes
      {
        if k != r.id {
          assert k in before;
        }
      }
      forall k | k in r.notes
        ensures 1 <= k as int <= n + 1 && r.notes[k].id == k && r.notes[k].text == texts[k - 1]
      {
        if k != r.id {
          assert k in before && prefix[k - 1] == texts[k - 1];
        }
      }
    }
  }

  /**
   * On a table holding IDs 1..n, deleting any ID k < n and then creating
   * returns ID n, which is still in use: note n is silently overwritten and
   * the table shrinks to n - 1 notes.
   */
  lemma DeleteThenCreateOverwrites(notes: Notes, n: nat, k: uint32, text: string)
    requires Dense(notes, n)
    requires n < U32_MODULUS
    requires 1 <= k as int < n
    ensures Delete(notes, k).Some?
    ensures var d := Delete(notes, k).value;
      && Create(d, text).id as int == n
      && Create(d, text).id in d
      && Create(d, text).notes[Create(d, text).id] == Note(Create(d, text).id, text)
      && |Create(d, text).notes| == n - 1
  {
    var d := Delete(notes, k).value;
    assert (n as uint32) in notes;
    assert (n as uint32) in d;
  }

  /**
   * Create "a", create "b", delete 1, create "c": the third create returns
   * ID 2 again, and note 2's text "b" is replaced by "c".
   */
  lemma CollisionExample()
    ensures var t1 := Create(map[], "a");
      var t2 := Create(t1.notes, "b");
      var t3 := Delete(t2.notes, 1);
      && t1.id == 1 && t2.id == 2
      && t3.Some?
      && Create(t3.value, "c").id == 2
      && Create(t3.value, "c").notes == map[2 := Note(2, "c")]
  {
    var t1 := Create(map[], "a");
    assert t1.notes == map[1 := Note(1, "a")];
    var t2 := Create(t1.notes, "b");
    assert t2.notes == map[1 := Note(1, "a"), 2 := Note(2, "b")];
    var t3 := Delete(t2.notes, 1).value;
    assert t3 == map[2 := Note(2, "b")];
  }
}
