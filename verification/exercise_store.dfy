/** The in-memory exercise store of the gym-tracker service: an ordered list
    of exercise records plus the counter from which new ids are drawn. Each of
    the four request handlers is a pure function from the current store and
    the request's input to the next store and the handler's response. */
module ExerciseStore {

  import opened Wrappers
  import opened Json

  /** One exercise record. The id is assigned by the store; name, sets and
      reps are whatever JSON values the client sent. */
  datatype Exercise = Exercise(id: nat, name: Value, sets: Value, reps: Value)

  /** The whole state of the service: the records in insertion order and
      the id the next created record will get. */
  datatype Store = Store(exercises: seq<Exercise>, nextId: nat)

  /** What a handler answers. `Ok` carries the created or updated record
      (statuses 201 and 200), `Listed` the whole collection, `Deleted` the
      confirmation message, `BadRequest` and `NotFound` the 400 and 404
      errors. */
  datatype Response =
    | Ok(record: Exercise)
    | Listed(records: seq<Exercise>)
    | Deleted
    | BadRequest
    | NotFound

  /** The outcome of one handler: the store afterwards and the response. */
  datatype Step = Step(store: Store, response: Response)

  /** The store at process start: no records, and the first id is 1. */
  const Init: Store := Store([], 1)

  /** True iff some record of `xs` carries `id`. */
  predicate HasId(xs: seq<Exercise>, id: nat) {
    exists k :: 0 <= k < |xs| && xs[k].id == id
  }

  /** Ids strictly increase in list order (hence are pairwise distinct). */
  predicate IdsIncreasing(xs: seq<Exercise>) {
    forall i, j :: 0 <= i < j < |xs| ==> xs[i].id < xs[j].id
  }

  /** The store invariant: ids strictly increase in list order, every id is
      at least 1, and every id is below the counter. */
  predicate Valid(s: Store) {
    && 1 <= s.nextId
    && IdsIncreasing(s.exercises)
    && (forall k :: 0 <= k < |s.exercises| ==> 1 <= s.exercises[k].id < s.nextId)
  }

  /** `i` is the position of the first record of `xs` that carries `id`. */
  predicate IsFirstMatch(xs: seq<Exercise>, id: nat, i: nat) {
    && i < |xs|
    && xs[i].id == id
    && forall k :: 0 <= k < i ==> xs[k].id != id
  }

  /** The position of the first record carrying `id`, if any: the generator
      scan the update handler performs with `next(...)`. */
  function FindIndex(xs: seq<Exercise>, id: nat): (r: Option<nat>)
    ensures r.None? <==> !HasId(xs, id)
    ensures r.Some? ==> IsFirstMatch(xs, id, r.value)
  {
    if |xs| == 0 then None
    else if xs[0].id == id then Some(0)
    else match FindIndex(xs[1..], id)
      case None => None
      case Some(i) => Some(i + 1)
  }

  /** The records of `xs` whose id differs from `id`, in their original
      order: the list comprehension of the delete handler. */
  function Without(xs: seq<Exercise>, id: nat): (r: seq<Exercise>)
    ensures |r| <= |xs|
    ensures forall k :: 0 <= k < |r| ==> r[k].id != id && r[k] in xs
    ensures forall k :: 0 <= k < |xs| && xs[k].id != id ==> xs[k] in r
    ensures |r| < |xs| <==> HasId(xs, id)
    ensures !HasId(xs, id) ==> r == xs
  {
    if |xs| == 0 then []
    else if xs[0].id == id then Without(xs[1..], id)
    else
      assert HasId(xs, id) ==> HasId(xs[1..], id) by {
        if HasId(xs, id) {
          var k :| 0 <= k < |xs| && xs[k].id == id;
          assert xs[1..][k - 1].id == id;
        }
      }
      [xs[0]] + Without(xs[1..], id)
  }

  /** The record `e` with those of `sets` and `reps` overwritten that the
      payload carries. */
  function Patch(e: Exercise, payload: Object): Exercise {
    var e1 := if "sets" in payload then e.(sets := payload["sets"]) else e;
    if "reps" in payload then e1.(reps := payload["reps"]) else e1
  }

  /** GET /exercises: answers the whole collection as stored. */
  function List(s: Store): (st: Step)
    ensures st.store == s
    ensures st.response.Listed?
    ensures |st.response.records| == |s.exercises|
    ensures forall k :: 0 <= k < |s.exercises| ==> st.response.records[k] == s.exercises[k]
  {
    Step(s, Listed(s.exercises))
  }

  /** POST /exercises. `body` is the parsed JSON object, or None when the
      request carried none. A missing or empty body, or one without a
      "name" key, is refused; any name value is accepted, the empty string
      included. A new record gets the counter's id and zero sets and reps. */
  function Add(s: Store, body: Option<Object>): (st: Step)
    ensures st.response.BadRequest? || st.response.Ok?
    ensures st.response.BadRequest? <==>
              body.None? || |body.value| == 0 || "name" !in body.value
    ensures st.response.BadRequest? ==> st.store == s
    ensures st.response.Ok? ==>
              && st.response.record.id == s.nextId
              && st.response.record.name == body.value["name"]
              && st.response.record.sets == Num(0)
              && st.response.record.reps == Num(0)
              && st.store.nextId == s.nextId + 1
              && |st.store.exercises| == |s.exercises| + 1
              && st.store.exercises[..|s.exercises|] == s.exercises
              && st.store.exercises[|s.exercises|] == st.response.record
  {
    if body.None? || |body.value| == 0 || "name" !in body.value then
      Step(s, BadRequest)
    else
      var created := Exercise(s.nextId, body.value["name"], Num(0), Num(0));
      Step(Store(s.exercises + [created], s.nextId + 1), Ok(created))
  }

  /** PUT /exercises/<id>. Finds the first record carrying `id` and
      overwrites, on that record alone, the fields among "sets" and "reps"
      that the payload carries, copying their values unchecked. */
  function Update(s: Store, id: nat, payload: Object): (st: Step)
    ensures st.response.NotFound? || st.response.Ok?
    ensures st.response.NotFound? <==> !HasId(s.exercises, id)
    ensures st.response.NotFound? ==> st.store == s
    ensures st.store.nextId == s.nextId
    ensures |st.store.exercises| == |s.exercises|
    ensures st.response.Ok? ==>
              exists i: nat :: IsFirstMatch(s.exercises, id, i)
                && st.store.exercises[i] == st.response.record
                && (forall k :: 0 <= k < |s.exercises| && k != i ==>
                      st.store.exercises[k] == s.exercises[k])
    ensures st.response.Ok? ==>
              && st.response.record.id == id
              && (exists i: nat :: IsFirstMatch(s.exercises, id, i)
                    && st.response.record.name == s.exercises[i].name)
    ensures st.response.Ok? ==>
              forall i: nat :: IsFirstMatch(s.exercises, id, i) ==>
                && st.response.record.sets == (if "sets" in payload then payload["sets"] else s.exercises[i].sets)
                && st.response.record.reps == (if "reps" in payload then payload["reps"] else s.exercises[i].reps)
  {
    match FindIndex(s.exercises, id)
    case None => Step(s, NotFound)
    case Some(i) =>
      assert forall j: nat :: IsFirstMatch(s.exercises, id, j) ==> j == i;
      var updated := Patch(s.exercises[i], payload);
      Step(s.(exercises := s.exercises[i := updated]), Ok(updated))
  }

  /** DELETE /exercises/<id>. Replaces the list by the records whose id
      differs from `id`, and reports success iff the list got shorter. */
  function Delete(s: Store, id: nat): (st: Step)
    ensures st.response.Deleted? || st.response.NotFound?
    ensures st.response.Deleted? <==> HasId(s.exercises, id)
    ensures st.response.NotFound? ==> st.store == s
    ensures st.store.nextId == s.nextId
    ensures !HasId(st.store.exercises, id)
    ensures forall k :: 0 <= k < |st.store.exercises| ==> st.store.exercises[k] in s.exercises
    ensures forall k :: 0 <= k < |s.exercises| && s.exercises[k].id != id ==>
              s.exercises[k] in st.store.exercises
  {
    var kept := Without(s.exercises, id);
    var after := s.(exercises := kept);
    if |kept| < |s.exercises| then Step(after, Deleted) else Step(after, NotFound)
  }
}
