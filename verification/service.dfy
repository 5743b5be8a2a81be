/** The service as a state machine: each request is one handler call on the
    shared store, and a run applies requests one after another, as the
    single process does. */
module Service {

  import opened Wrappers
  import opened Json
  import opened ExerciseStore
  import StoreLemmas

  /** The four routes, with the inputs their handlers read. */
  datatype Request =
    | GetAll
    | Post(body: Option<Object>)
    | Put(id: nat, payload: Object)
    | Remove(id: nat)

  /** Dispatches a request to its handler. The counter never goes down and
      rises by at most one. */
  function Handle(s: Store, req: Request): (st: Step)
    ensures s.nextId <= st.store.nextId <= s.nextId + 1
    ensures st.store.nextId == s.nextId + 1 <==> req.Post? && st.response.Ok?
  {
    match req
    case GetAll => List(s)
    case Post(body) => Add(s, body)
    case Put(id, payload) => Update(s, id, payload)
    case Remove(id) => Delete(s, id)
  }

  /** The store after serving `reqs` in order, starting from `s`. */
  function Run(s: Store, reqs: seq<Request>): Store
    decreases |reqs|
  {
    if |reqs| == 0 then s else Run(Handle(s, reqs[0]).store, reqs[1..])
  }

  lemma HandlePreservesValid(s: Store, req: Request)
    requires Valid(s)
    ensures Valid(Handle(s, req).store)
  {
    match req
    case GetAll =>
    case Post(body) => StoreLemmas.AddPreservesValid(s, body);
    case Put(id, payload) => StoreLemmas.UpdatePreservesValid(s, id, payload);
    case Remove(id) => StoreLemmas.DeletePreservesValid(s, id);
  }

  /** Every store reachable from a valid one is valid. */
  lemma {:induction false} RunPreservesValid(s: Store, reqs: seq<Request>)
    requires Valid(s)
    ensures Valid(Run(s, reqs))
    decreases |reqs|
  {
    if |reqs| > 0 {
      HandlePreservesValid(s, reqs[0]);
      RunPreservesValid(Handle(s, reqs[0]).store, reqs[1..]);
    }
  }

  /** The counter only grows, by at most one per request. */
  lemma {:induction false} RunCounterGrows(s: Store, reqs: seq<Request>)
    ensures s.nextId <= Run(s, reqs).nextId <= s.nextId + |reqs|
    decreases |reqs|
  {
    if |reqs| > 0 {
      RunCounterGrows(Handle(s, reqs[0]).store, reqs[1..]);
    }
  }

  /** Ids are never reused: an id that was issued before a run (every such
      id is below the counter) is never issued again by a create after
      it, even if its record was deleted meanwhile. */
  lemma IdsNeverReissued(s: Store, reqs: seq<Request>, body: Option<Object>, id: nat)
    requires id < s.nextId
    ensures var st := Add(Run(s, reqs), body);
            st.response.Ok? ==> st.response.record.id != id
  {
    RunCounterGrows(s, reqs);
  }

  /** Every reachable store is valid, so ids in any reachable store are
      unique and increasing. */
  lemma ReachableValid(reqs: seq<Request>)
    ensures Valid(Run(Init, reqs))
  {
    StoreLemmas.InitValid();
    RunPreservesValid(Init, reqs);
  }

  /** An example scenario: two creates hand out ids 1 and 2 even when the
      first record was deleted in between; a create without a name is
      refused; deleting twice fails the second time; an update of an
      unknown id is refused, one of a known id changes only the fields
      sent; an empty name is accepted. */
  lemma Walkthrough()
    ensures var squat := Post(Some(map["name" := Str("Squat")]));
            var s1 := Handle(Init, squat);
            && s1.response == Ok(Exercise(1, Str("Squat"), Num(0), Num(0)))
            && Handle(s1.store, Post(Some(map[]))).response.BadRequest?
            && Handle(s1.store, Put(999, map["sets" := Num(4)])).response.NotFound?
            && Handle(s1.store, Put(1, map["sets" := Num(4)])).response
                 == Ok(Exercise(1, Str("Squat"), Num(4), Num(0)))
            && Handle(s1.store, Post(Some(map["name" := Str("")]))).response.Ok?
            && var s2 := Handle(s1.store, Remove(1));
               && s2.response.Deleted?
               && Handle(s2.store, Remove(1)).response.NotFound?
               && Handle(s2.store, squat).response.record.id == 2
  {
  }

  /** The request and response examples in the handlers' docstrings,
      replayed from process start: creating "Agachamento" answers id 1
      with zero sets and reps; updating it with sets 4 and reps 12
      answers the updated record; deleting it succeeds. Likewise,
      creating "Supino" and updating it with sets 3 and reps 10 makes the
      listing answer exactly that one record. */
  lemma DocstringExamples()
    ensures var s1 := Handle(Init, Post(Some(map["name" := Str("Agachamento")])));
            && s1.response == Ok(Exercise(1, Str("Agachamento"), Num(0), Num(0)))
            && var s2 := Handle(s1.store, Put(1, map["sets" := Num(4), "reps" := Num(12)]));
               && s2.response == Ok(Exercise(1, Str("Agachamento"), Num(4), Num(12)))
               && Handle(s2.store, Remove(1)).response.Deleted?
    ensures var s1 := Handle(Init, Post(Some(map["name" := Str("Supino")])));
            var s2 := Handle(s1.store, Put(1, map["sets" := Num(3), "reps" := Num(10)]));
            Handle(s2.store, GetAll).response == Listed([Exercise(1, Str("Supino"), Num(3), Num(10))])
  {
  }
}
