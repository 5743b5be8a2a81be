# Exercise store of gym-tracker, in Dafny

gym-tracker is a small Flask service that keeps a list of exercise records
`{id, name, sets, reps}` in memory, plus a counter `next_exercise_id` that
starts at 1. Four handlers act on it:
- list (`GET /exercises`);
- add (`POST /exercises`);
- update (`PUT /exercises/<id>`);
- delete (`DELETE /exercises/<id>`).

This project models that store as a value. A `Store` is a sequence of
`Exercise` records plus a `nat` counter. Each handler is a pure function
from the store and the request's input to a `Step`, which holds the next
store and a `Response`: `Ok(record)`, `Listed(records)`, `Deleted`,
`BadRequest` or `NotFound`.

Files:
- `wrappers.dfy`: module `Wrappers`, the `Option` type.
- `json.dfy`: module `Json`, the JSON values a request carries. Records
  store these values verbatim.
- `exercise_store.dfy`: module `ExerciseStore`, the records, the store,
  the invariant `Valid` and the four handlers. `Patch` is the field
  overwrite of the update handler (main.py:58-61).
- `store_lemmas.dfy`: module `StoreLemmas`, lemmas that relate handler
  calls or depend on the invariant.
- `service.dfy`: module `Service`. It treats requests as a state machine
  and proves facts about whole runs. `Handle` dispatches one request to
  its handler. `Run` serves a sequence of requests one at a time, as the
  single process does.

The invariant `Valid` says three things:
- ids strictly increase in list order;
- every id is at least 1;
- every id is below the counter.

The initial store satisfies it, and every handler preserves it. So ids are
unique, and an id is never handed out twice, even after its record has
been deleted.

Behaviour the model follows exactly:
- The add handler refuses only a missing body, an empty body, or a body
  without a `"name"` key (main.py:30). A missing body is a JSON `null`
  body, or, on older Flask versions, a request that is not JSON; newer
  versions refuse a request that is not JSON inside `get_json()` before
  the handler's check runs. A name of `""`, or a name that is
  not a string, is stored as sent.
- The update handler copies whatever JSON values it is sent for `sets`
  and `reps`, without a type or range check (main.py:58-61). The
  docstring example (main.py:49) sends numbers, but nothing enforces it.
- Delete always replaces the list by the records whose id differs.
  Success is decided by whether the list got shorter (main.py:74-76). The
  model proves that when nothing was removed, the new list equals the old
  one.
- Update changes the first record that carries the id, as `next(...)`
  does at main.py:53. Under the invariant there is only one such record.
- Route ids are `nat`. Flask's `<int:...>` converter matches only
  unsigned digit strings.

## Model

| member | source | states |
|---|---|---|
| ExerciseStore.FindIndex | main.py:53 | Finds nothing iff no record carries the id. Otherwise it returns the position of the first record that carries it. |
| ExerciseStore.Without | main.py:74 | The result holds exactly the records of the original list whose id differs: every kept record comes from the list and lacks the id, and every record with a different id is kept. It is strictly shorter iff some record had the id. It equals the original list when none did. |
| ExerciseStore.List | main.py:10-17 | Answers the stored records exactly, element by element, and leaves the store unchanged. |
| ExerciseStore.Add | main.py:28-41 | Answers BadRequest iff the body is absent, is empty or lacks "name". In that case the store is unchanged. An empty-string name is accepted. On success it appends exactly one record: its id is the old counter, its name is the sent value, sets = reps = 0. Earlier records stay as they were and the counter rises by one. |
| ExerciseStore.Update | main.py:52-63 | Answers NotFound iff no record carries the id. In that case the store is unchanged. Otherwise only the first record carrying the id changes: sets and reps take the payload's values where present and keep the old ones where absent. The id and name stay. Every other record, the length and the counter stay unchanged. The answer is the updated list entry. |
| ExerciseStore.Delete | main.py:72-79 | Answers Deleted iff some record carried the id. On NotFound the store is unchanged. Afterwards no record carries the id. Every remaining record was in the old list, and every old record with a different id remains. The counter is unchanged. |
| StoreLemmas.InitValid | main.py:7-8 | The empty list with counter 1 satisfies the invariant, and listing it answers the empty sequence. |
| StoreLemmas.IdsUnique | main.py:33-40 | In a valid store no two records share an id. |
| StoreLemmas.AddPreservesValid | main.py:33-40 | Add keeps ids increasing and below the counter. |
| StoreLemmas.UpdatePreservesValid | main.py:58-61 | Update keeps the invariant, because it never changes an id. |
| StoreLemmas.WithoutIncreasing | main.py:74 | Filtering out one id keeps ids increasing, because the kept records stay in their order. |
| StoreLemmas.DeletePreservesValid | main.py:72-74 | Delete keeps the invariant. |
| StoreLemmas.WithoutSingle | main.py:74 | With increasing ids, filtering out the id at position i gives exactly the list with position i removed. |
| StoreLemmas.DeleteRemovesExactlyOne | main.py:73-77 | On a valid store a successful delete removes exactly the one record with the id. The others keep their original order. |
| StoreLemmas.DeleteTwiceFails | main.py:74-79 | A second delete of the same id answers NotFound and leaves the store as the first delete left it. |
| StoreLemmas.WithoutAppend | main.py:74 | Filtering a list with one record appended gives the filtered list followed by that record, unless the record carries the id. |
| StoreLemmas.DeleteUndoesAdd | main.py:33-77 | Deleting the record just created restores the previous list. The counter stays advanced. |
| StoreLemmas.UpdateIdempotent | main.py:58-61 | Sending the same update twice gives the same store and answer as sending it once. |
| StoreLemmas.UpdateWithoutFieldsChangesNothing | main.py:58-61 | An update payload with neither "sets" nor "reps" leaves the store unchanged. |
| Service.Handle | main.py:10-79 | Under any request the counter never decreases and rises by at most one. It rises exactly when a create succeeds. |
| Service.HandlePreservesValid | main.py:10-79 | Every handler preserves the store invariant. |
| Service.RunPreservesValid | main.py:7-8 | Any sequence of requests from a valid store ends in a valid store. |
| Service.RunCounterGrows | main.py:34-40 | Over a run the counter never decreases and grows by at most the number of requests. |
| Service.IdsNeverReissued | main.py:34-40 | An id issued before a run is never issued again by a later create, even if its record was deleted. |
| Service.ReachableValid | main.py:7-8 | Every store reachable from process start satisfies the invariant. |
| Service.DocstringExamples | main.py:14-70 | The handlers' docstring examples hold. Creating "Agachamento" answers id 1 with sets = reps = 0. Updating it with sets 4 and reps 12 answers the updated record. Deleting it succeeds. Creating "Supino" and updating it with sets 3 and reps 10 makes the listing answer exactly that record. |
| Service.Walkthrough | main.py:19-79 | An example scenario. Creating "Squat" gives id 1 with sets = reps = 0, and an empty-string name is accepted. An empty body is refused, and so is an update of id 999. An update of sets changes only sets. Delete succeeds once and then answers NotFound, and the next create gets id 2. |

## Left out

- Flask routing, `request.get_json()` parsing, `jsonify` serialisation and HTTP status codes are not modelled. Outcomes are the `Response` datatype instead. The CORS setup and `app.run` (main.py:1-5, 81-82) are framework and process plumbing.
- Non-object JSON bodies are not modelled: a list, a string, a number or a boolean sent to POST. For these, Python's truthiness and `in` either refuse the body or raise inside the handler. The add body is modelled as absent or a JSON object.
- A PUT with a `null` body (or, on older Flask versions, with no JSON body) is not modelled. Newer Flask versions refuse a request that is not JSON inside `get_json()` (main.py:52) before the lookup runs. For an unknown id the handler answers 404 before touching the body (main.py:55-56). For an existing id, `'sets' in data` raises on `None` (main.py:58), a framework-level crash. The update payload is always a present object.
- JSON numbers are integers in the model. Fractional numbers are not represented.
- The store is process-wide mutable state with no locking. Concurrent requests are not modelled: the model applies requests one at a time.
- Records are Python dicts that the update handler mutates in place. The model replaces the list entry with the updated record, which is observably the same because nothing else holds a reference to it.
- ExerciseStore.Without: does not state, for an arbitrary list, the relative order and multiplicity of the kept records. Its contract gives membership in both directions, so for a list with repeated records it does not fix how many copies survive. Order is proved where it matters: `StoreLemmas.WithoutSingle` gives the exact result for lists with increasing ids, and `StoreLemmas.WithoutIncreasing` shows filtering keeps ids increasing. Stating order for lists with repeated records needs a subsequence relation the model does not define.
- ExerciseStore.Delete: inherits the same gap. On a valid store `StoreLemmas.DeleteRemovesExactlyOne` states the exact, order-preserving result.
