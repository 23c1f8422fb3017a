# CRUD-ICP todo canister, modelled in Dafny

The canister keeps one `TodoList`: a vector of `Todo { id: Nat, desc: String, completed: bool }`.
Its install hook `init` saves an empty list. Its callable methods are `create_todo`,
`update_todo`, `get_todos`, `get_paginated_todos`, `get_latest_todos` and `delete_todo`. Every
entry point except `init` restores the whole vector from stable memory and transforms it.
Mutating entry points then save it back. `init` builds the default, empty `TodoList` and only
saves it. This model treats the stored
vector as an explicit value, `seq<Todo>`. Each entry point is a pure function from the current
items to the new items and the reply.

Files:

- `todo_list.dfy` (module `TodoList`): the records, `init`, `create_todo`, `update_todo`,
  `delete_todo`, `get_todos`, and the first-match search they share.
- `pagination.dfy` (module `Pagination`): `get_paginated_todos`, including its panic.
- `latest.dfy` (module `Latest`): `get_latest_todos` as a stable sort by id, then a reverse,
  then the first ten.
- `canister.dfy` (module `Canister`): all entry points as one call/reply state machine, and
  lemmas about sequences of calls. There, `InitCall` stands for the install or reinstall hook
  that runs `init`, not for a method a client can call.

Behaviour reproduced from the code, where it differs from an idealised store:

- An id is the current length plus one (`lib.rs:25`). There is no monotonic counter. After a
  delete, a create can mint an id that is still in use (`Canister.DeleteThenCreateDuplicatesId`).
- Pagination is positional over the stored order. When `page_number * page_size` exceeds the
  length, the slice `items[start..end]` has `end < start`, so the call panics and traps. It
  does not return an empty page. This is modelled as the `Panicked` outcome.
- A successful delete replies `"Todo item updated successfully"`, the same text as update.
- Updates and deletes act on the FIRST item whose id matches. Later duplicates are untouched.
- `get_latest_todos` uses Rust's stable `sort_by_key`, then reverses. Among equal ids, the
  item stored later therefore comes first.

The model follows the code and not an idealised store. It has no keyed map, no `last_id`
counter that is never reused, no empty page past the end, and no commit-or-abort persistence.

## Model

| member | source | states |
|---|---|---|
| TodoList.Init | src/crud_backend/src/lib.rs:17-20 | `init` leaves an empty list: no id is present, and ids trivially equal positions |
| TodoList.FindFirst | src/crud_backend/src/lib.rs:38 | the search finds an index iff some item carries the id, and that index is the first item carrying it |
| TodoList.CreateTodo | src/crud_backend/src/lib.rs:23-33 | returns `len + 1`; the list grows by one; every earlier item is unchanged; the new last item is that id, the given description, not completed |
| TodoList.Patch | src/crud_backend/src/lib.rs:39-44 | the patched item keeps its id; `desc` becomes the supplied description, else stays; `completed` becomes the supplied flag, else stays |
| TodoList.UpdateTodo | src/crud_backend/src/lib.rs:36-51 | replies success iff the id is present, and not-found otherwise with the list unchanged; the length is kept; only the first matching item changes; its id is kept; its desc and completed are replaced only when supplied |
| TodoList.DeleteTodo | src/crud_backend/src/lib.rs:74-84 | replies the update success text iff the id is present; removes exactly the first matching position (`items[..pos] + items[pos+1..]`) and the length drops by one; not-found leaves the list unchanged |
| TodoList.GetTodos | src/crud_backend/src/lib.rs:54-57 | returns the stored items exactly, in stored order |
| TodoList.PositionalIdsIncrease | src/crud_backend/src/lib.rs:18-25 | when ids equal positions plus one, ids strictly increase and no two items share an id |
| TodoList.CreateKeepsPositionalIds | src/crud_backend/src/lib.rs:25-30 | a create keeps every item's id equal to its position plus one |
| TodoList.UpdateKeepsPositionalIds | src/crud_backend/src/lib.rs:38-44 | an update never changes an id, so it keeps ids equal to positions plus one |
| TodoList.EmptyUpdateChangesNothing | src/crud_backend/src/lib.rs:39-46 | an update with neither field supplied leaves the list unchanged, yet still replies success when the id is present |
| TodoList.DeletePreservesOrder | src/crud_backend/src/lib.rs:76-77 | after a delete, position `i` holds the old item at `i` before the removed position and at `i + 1` after it; exactly the removed item leaves the multiset |
| Pagination.GetPaginatedTodos | src/crud_backend/src/lib.rs:60-65 | panics iff `page_number * page_size > len`; otherwise returns `min(page_size, len - start)` items, the k-th being the stored item at `start + k` |
| Pagination.PageAtMostPageSize | src/crud_backend/src/lib.rs:63 | a returned page holds at most `page_size` items |
| Pagination.ZeroPageSizeIsEmpty | src/crud_backend/src/lib.rs:62-64 | `page_size == 0` returns the empty page for every page number |
| Pagination.FirstFullPageIsEverything | src/crud_backend/src/lib.rs:62-64 | page 0 of size `len` returns the whole list |
| Pagination.PageAtOrPastEnd | src/crud_backend/src/lib.rs:62-64 | a page starting exactly at `len` is empty; one starting later panics |
| Pagination.ReadPagesIsPrefix | src/crud_backend/src/lib.rs:62-64 | reading pages `0 .. n-1` in turn yields the first `min(n * page_size, len)` stored items, in order |
| Pagination.PagesCoverList | src/crud_backend/src/lib.rs:62-64 | with a non-zero page size, the pages up to the one reaching the end cover the list exactly once, in order |
| Latest.InsertById | src/crud_backend/src/lib.rs:69 | one insertion step of the sort adds exactly the given item to the multiset |
| Latest.InsertByIdKeepsSorted | src/crud_backend/src/lib.rs:69 | inserting into a list sorted by id keeps it sorted |
| Latest.SortById | src/crud_backend/src/lib.rs:69 | the sort is a permutation of its input and is sorted by ascending id |
| Latest.SortByIdIsStable | src/crud_backend/src/lib.rs:69 | the sort is stable: for every id, the items carrying it keep their stored order |
| Latest.SortByIdIsTheStableSort | src/crud_backend/src/lib.rs:69 | any sequence sorted by id that keeps every id's stored order equals the sort's result, so sortedness and stability fully specify it |
| Latest.Reverse | src/crud_backend/src/lib.rs:70 | position `i` of the result is position `len - 1 - i` of the input |
| Latest.GetLatestTodos | src/crud_backend/src/lib.rs:67-71 | returns `min(10, len)` items, in non-increasing id order, forming a sub-multiset of the stored items |
| Latest.LatestAreTopIds | src/crud_backend/src/lib.rs:69-70 | no item left out has a larger id than any item returned |
| Latest.LatestTieBreak | src/crud_backend/src/lib.rs:69-70 | among returned items with equal ids, the one returned first was stored later: it comes after the other in that id's stored subsequence |
| Latest.LatestOfPositionalIds | src/crud_backend/src/lib.rs:69-70 | on a list built by creates alone, the result is the last items newest first, with ids `len, len-1, ...` |
| Canister.Step | src/crud_backend/src/lib.rs:16-84 | queries leave the list unchanged; a delete never grows it; no call other than init and delete shrinks it; a call traps iff it is a page request starting past the end |
| Canister.Run | src/crud_backend/src/lib.rs:16-84 | a run returns one reply per call; a run of queries alone leaves the list unchanged |
| Canister.StepKeepsPositionalIds | src/crud_backend/src/lib.rs:18-45 | every call except delete keeps ids equal to positions plus one |
| Canister.NoDeleteKeepsPositionalIds | src/crud_backend/src/lib.rs:18-45 | with no deletes, any run keeps `items[i].id == i + 1`, so ids stay distinct and strictly increasing |
| Canister.CreateAfterInitReturnsCount | src/crud_backend/src/lib.rs:18-32 | after `init` and no deletes, the next create returns `len + 1`, an id not yet present |
| Canister.DeleteThenCreateDuplicatesId | src/crud_backend/src/lib.rs:25-32 | from any stored list, init, create, create, delete id 1, create: the last create returns 2 again, and two different stored items carry id 2 |
| Canister.EndToEndScenario | src/crud_backend/src/lib.rs:23-84 | create returns ids 1 and 2; the update replies success and marks id 1 completed; delete of id 2 replies success; a second delete of id 2 replies not found |
| Canister.LatestAfterFifteenCreates | src/crud_backend/src/lib.rs:67-71 | after `init` and fifteen creates, the latest todos are exactly ten items, with ids 15 down to 6 |
| Canister.RunAppend | src/crud_backend/src/lib.rs:16-84 | running `calls + [c]` equals running `calls` and then one more step |
| Canister.CreatesGrowByOne | src/crud_backend/src/lib.rs:18-30 | `init` followed by `n` creates leaves exactly `n` items |

## Left out

- Stable memory: `storage::stable_save` / `stable_restore`, Candid (de)serialisation, and their
  `unwrap` failures are foreign calls. The stored list is threaded through every operation as a
  value. No rollback is modelled, because the code has none.
- Canister plumbing: the `#[init]`, `#[update]` and `#[query]` attributes and
  `ic_cdk::export_candid!()` carry no logic.
- Concurrency: the host runs one call at a time, so each call is one atomic `Step`.
- Pagination.GetPaginatedTodos: `page_number`, `page_size`, `start + page_size` and the product
  are unbounded naturals here. The source's `usize` overflow in `page_number * page_size` and in
  `start + page_size` is not modelled, so inputs large enough to overflow are not covered.
- TodoList.CreateTodo: the `len as u64 + 1` conversion is taken as exact. A list holding 2^64
  items cannot exist, so it cannot wrap.
- Restart behaviour: the code has no restart logic of its own. Ids come from the list length,
  not from a stored counter.
