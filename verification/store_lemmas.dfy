/** Properties of the exercise store that relate several handler calls, or
    that hold only of stores satisfying the invariant `Valid`. */
module StoreLemmas {

  import opened Wrappers
  import opened Json
  import opened ExerciseStore

  /** The process starts with an empty list, which satisfies the invariant. */
  lemma InitValid()
    ensures Valid(Init)
    ensures List(Init).response.records == []
  {
  }

  /** In a valid store no two records share an id. */
  lemma IdsUnique(s: Store)
    requires Valid(s)
    ensures forall i, j :: 0 <= i < |s.exercises| && 0 <= j < |s.exercises| && i != j ==>
              s.exercises[i].id != s.exercises[j].id
  {
    forall i, j | 0 <= i < |s.exercises| && 0 <= j < |s.exercises| && i != j
      ensures s.exercises[i].id != s.exercises[j].id
    {
      if i < j {
        assert s.exercises[i].id < s.exercises[j].id;
      } else {
        assert s.exercises[j].id < s.exercises[i].id;
      }
    }
  }

  lemma AddPreservesValid(s: Store, body: Option<Object>)
    requires Valid(s)
    ensures Valid(Add(s, body).store)
  {
  }

  lemma UpdatePreservesValid(s: Store, id: nat, payload: Object)
    requires Valid(s)
    ensures Valid(Update(s, id, payload).store)
  {
    var st := Update(s, id, payload);
    if st.response.Ok? {
      var i: nat :| IsFirstMatch(s.exercises, id, i)
        && st.store.exercises[i] == st.response.record
        && (forall k :: 0 <= k < |s.exercises| && k != i ==> st.store.exercises[k] == s.exercises[k]);
      assert forall k :: 0 <= k < |s.exercises| ==> st.store.exercises[k].id == s.exercises[k].id;
    }
  }

  /** Putting a record before a list whose ids all exceed its own keeps
      ids increasing. */
  lemma ConsIncreasing(e: Exercise, rest: seq<Exercise>)
    requires IdsIncreasing(rest)
    requires forall k :: 0 <= k < |rest| ==> e.id < rest[k].id
    ensures IdsIncreasing([e] + rest)
  {
    var r := [e] + rest;
    forall i, j | 0 <= i < j < |r| ensures r[i].id < r[j].id {
      assert r[j] == rest[j - 1];
      if i > 0 {
        assert r[i] == rest[i - 1];
      }
    }
  }

  /** Every record kept by filtering a list comes from that list, so in an
      increasing list it has a larger id than any record placed before it. */
  lemma WithoutAbove(e: Exercise, xs: seq<Exercise>, id: nat)
    requires forall k :: 0 <= k < |xs| ==> e.id < xs[k].id
    ensures forall k :: 0 <= k < |Without(xs, id)| ==> e.id < Without(xs, id)[k].id
  {
    var rest := Without(xs, id);
    forall k | 0 <= k < |rest| ensures e.id < rest[k].id {
      assert rest[k] in xs;
    }
  }

  /** Filtering keeps the records that stay in their relative order, so
      it keeps ids increasing. */
  lemma {:induction false} WithoutIncreasing(xs: seq<Exercise>, id: nat)
    requires IdsIncreasing(xs)
    ensures IdsIncreasing(Without(xs, id))
  {
    if |xs| > 0 {
      var tail := xs[1..];
      assert IdsIncreasing(tail);
      WithoutIncreasing(tail, id);
      if xs[0].id != id {
        assert forall k :: 0 <= k < |tail| ==> xs[0].id < tail[k].id;
        WithoutAbove(xs[0], tail, id);
        ConsIncreasing(xs[0], Without(tail, id));
      }
    }
  }

  lemma DeletePreservesValid(s: Store, id: nat)
    requires Valid(s)
    ensures Valid(Delete(s, id).store)
  {
    WithoutIncreasing(s.exercises, id);
    var kept := Delete(s, id).store.exercises;
    forall k | 0 <= k < |kept| ensures 1 <= kept[k].id < s.nextId {
      var m :| 0 <= m < |s.exercises| && s.exercises[m] == kept[k];
    }
  }

  /** In an increasing list, nothing after the head carries the head's id. */
  lemma TailLacksHeadId(xs: seq<Exercise>)
    requires |xs| > 0
    requires IdsIncreasing(xs)
    ensures !HasId(xs[1..], xs[0].id)
  {
    var tail := xs[1..];
    forall k | 0 <= k < |tail| ensures tail[k].id != xs[0].id {
      assert tail[k] == xs[k + 1];
    }
  }

  /** Filtering out the head's id of an increasing list drops the head alone. */
  lemma WithoutHead(xs: seq<Exercise>)
    requires |xs| > 0
    requires IdsIncreasing(xs)
    ensures Without(xs, xs[0].id) == xs[1..]
  {
    TailLacksHeadId(xs);
  }

  /** Splitting a list after its head moves slices by one position. */
  lemma SlicesOfTail(xs: seq<Exercise>, i: nat)
    requires 0 < i < |xs|
    ensures xs[..i] + xs[i + 1..] == [xs[0]] + (xs[1..][..i - 1] + xs[1..][i..])
  {
    assert xs[..i] == [xs[0]] + xs[1..][..i - 1];
    assert xs[i + 1..] == xs[1..][i..];
  }

  /** A first match past the head is a first match, one position earlier,
      in the tail. */
  lemma FirstMatchInTail(xs: seq<Exercise>, id: nat, i: nat)
    requires IdsIncreasing(xs)
    requires 0 < i && IsFirstMatch(xs, id, i)
    ensures xs[0].id != id
    ensures IdsIncreasing(xs[1..])
    ensures IsFirstMatch(xs[1..], id, i - 1)
  {
    var tail := xs[1..];
    forall k | 0 <= k < i - 1 ensures tail[k].id != id {
      assert tail[k] == xs[k + 1];
    }
  }

  /** Filtering keeps a head that does not carry the id. */
  lemma WithoutKeepsHead(xs: seq<Exercise>, id: nat)
    requires |xs| > 0 && xs[0].id != id
    ensures Without(xs, id) == [xs[0]] + Without(xs[1..], id)
  {
  }

  /** With distinct ids, filtering out the id of the record at position
      `i` removes exactly that record. */
  lemma {:induction false} WithoutSingle(xs: seq<Exercise>, id: nat, i: nat)
    requires IdsIncreasing(xs)
    requires IsFirstMatch(xs, id, i)
    ensures Without(xs, id) == xs[..i] + xs[i + 1..]
  {
    if i == 0 {
      WithoutHead(xs);
      assert xs[..0] + xs[1..] == xs[1..];
    } else {
      FirstMatchInTail(xs, id, i);
      WithoutSingle(xs[1..], id, i - 1);
      WithoutKeepsHead(xs, id);
      SlicesOfTail(xs, i);
    }
  }

  /** On a valid store a successful delete removes exactly one record, the
      one carrying the id, and keeps the others in their order. */
  lemma DeleteRemovesExactlyOne(s: Store, id: nat)
    requires Valid(s)
    requires Delete(s, id).response.Deleted?
    ensures exists i :: 0 <= i < |s.exercises| && s.exercises[i].id == id
              && Delete(s, id).store.exercises == s.exercises[..i] + s.exercises[i + 1..]
  {
    var i: nat := FindIndex(s.exercises, id).value;
    WithoutSingle(s.exercises, id, i);
  }

  /** Deleting the same id twice fails the second time, leaving the store
      as the first delete left it. */
  lemma DeleteTwiceFails(s: Store, id: nat)
    ensures var s1 := Delete(s, id).store;
            && Delete(s1, id).response.NotFound?
            && Delete(s1, id).store == s1
  {
  }

  /** Appending one record commutes with filtering. */
  lemma {:induction false} WithoutAppend(xs: seq<Exercise>, e: Exercise, id: nat)
    ensures Without(xs + [e], id) == Without(xs, id) + (if e.id == id then [] else [e])
  {
    if |xs| > 0 {
      assert (xs + [e])[1..] == xs[1..] + [e];
      WithoutAppend(xs[1..], e, id);
    } else {
      assert xs + [e] == [e];
    }
  }

  /** Deleting the record just created restores the previous list; the
      counter stays advanced, so its id is not handed out again. */
  lemma DeleteUndoesAdd(s: Store, body: Option<Object>)
    requires Valid(s)
    requires Add(s, body).response.Ok?
    ensures var added := Add(s, body);
            var removed := Delete(added.store, added.response.record.id);
            && removed.response.Deleted?
            && removed.store == Store(s.exercises, s.nextId + 1)
  {
    var added := Add(s, body);
    var e := added.response.record;
    assert added.store.exercises == s.exercises + [e];
    WithoutAppend(s.exercises, e, e.id);
    assert !HasId(s.exercises, e.id);
  }

  /** Sending the same update twice has the effect of sending it once. */
  lemma UpdateIdempotent(s: Store, id: nat, payload: Object)
    ensures var once := Update(s, id, payload);
            var twice := Update(once.store, id, payload);
            twice == once
  {
    var once := Update(s, id, payload);
    if once.response.Ok? {
      var xs, ys := s.exercises, once.store.exercises;
      var i: nat :| IsFirstMatch(xs, id, i)
        && ys[i] == once.response.record
        && (forall k :: 0 <= k < |xs| && k != i ==> ys[k] == xs[k]);
      assert IsFirstMatch(ys, id, i);
      assert FindIndex(ys, id) == Some(i) by {
        var j := FindIndex(ys, id).value;
        assert IsFirstMatch(ys, id, j);
      }
      assert ys[i := Patch(ys[i], payload)] == ys;
    }
  }

  /** An update whose payload carries neither "sets" nor "reps" changes
      nothing, whether or not the id exists. */
  lemma UpdateWithoutFieldsChangesNothing(s: Store, id: nat, payload: Object)
    requires "sets" !in payload && "reps" !in payload
    ensures Update(s, id, payload).store == s
  {
    var st := Update(s, id, payload);
    if st.response.Ok? {
      var i: nat :| IsFirstMatch(s.exercises, id, i)
        && st.store.exercises[i] == st.response.record
        && (forall k :: 0 <= k < |s.exercises| && k != i ==> st.store.exercises[k] == s.exercises[k]);
      assert st.store.exercises == s.exercises;
    }
  }
}
