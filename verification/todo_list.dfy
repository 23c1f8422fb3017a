/**
  The todo list of the canister and its mutating entry points.

  The canister keeps one `TodoList` whose only field is a vector of `Todo`
  records. Every entry point except the `init` hook restores that vector
  from stable memory, transforms it, and (for updates) saves it back; `init`
  only saves the default, empty list. Here the stored vector is
  an explicit value: each operation takes the current items and returns the
  new items together with the entry point's reply.
 */
module TodoList {

  datatype Option<T> = None | Some(value: T)

  /** One record; `id` is a candid `Nat`, i.e. an unbounded natural. */
  datatype Todo = Todo(id: nat, desc: string, completed: bool)

  /** The items after a call, paired with the value the entry point returns. */
  datatype Outcome<R> = Outcome(items: seq<Todo>, result: R)

  /** The reply of a successful update AND of a successful delete. */
  const UpdatedMsg: string := "Todo item updated successfully"

  /** The reply of update and delete when no item carries the id. */
  const NotFoundMsg: string := "Todo item not found"

  /** Some item of `items` carries `id`. */
  predicate HasId(items: seq<Todo>, id: nat) {
    exists i :: 0 <= i < |items| && items[i].id == id
  }

  /** `pos` is the position of the first item carrying `id`. */
  predicate IsFirstMatch(items: seq<Todo>, id: nat, pos: int) {
    && 0 <= pos < |items|
    && items[pos].id == id
    && forall j :: 0 <= j < pos ==> items[j].id != id
  }

  /** Item ids are exactly the positions counted from one: the shape of a
      list built by `create_todo` alone. */
  predicate IdsArePositions(items: seq<Todo>) {
    forall i :: 0 <= i < |items| ==> items[i].id == i + 1
  }

  /** Ids strictly increase along the list, so in particular they are distinct. */
  predicate StrictlyIncreasingIds(items: seq<Todo>) {
    forall i, j :: 0 <= i < j < |items| ==> items[i].id < items[j].id
  }

  /** `init`: the default `TodoList`, an empty vector. */
  function Init(): (items: seq<Todo>)
    ensures IdsArePositions(items)
    ensures forall id :: !HasId(items, id)
  {
    []
  }

  /** The search shared by `iter().position` and `iter_mut().find`: the index
      of the first item whose id equals `id`, if any. */
  function FindFirst(items: seq<Todo>, id: nat): (r: Option<nat>)
    ensures r.Some? <==> HasId(items, id)
    ensures r.Some? ==> IsFirstMatch(items, id, r.value)
    decreases |items|
  {
    if |items| == 0 then None
    else if items[0].id == id then Some(0)
    else
      match FindFirst(items[1..], id)
      case None =>
        assert forall i :: 1 <= i < |items| ==> items[i] == items[1..][i - 1];
        None
      case Some(k) =>
        assert items[k + 1] == items[1..][k];
        Some(k + 1)
  }

  /** `create_todo`: appends a fresh, not completed item whose id is the
      current length plus one, and returns that id. */
  function CreateTodo(items: seq<Todo>, desc: string): (r: Outcome<nat>)
    ensures r.result == |items| + 1
    ensures |r.items| == |items| + 1
    ensures r.items[..|items|] == items
    ensures r.items[|items|] == Todo(r.result, desc, false)
  {
    var id := |items| + 1;
    Outcome(items + [Todo(id, desc, false)], id)
  }

  /** The partial update applied to the matching item: a supplied field
      replaces the old one, an omitted field is kept. */
  function Patch(t: Todo, newDesc: Option<string>, newCompleted: Option<bool>): (u: Todo)
    ensures u.id == t.id
    ensures newDesc.Some? ==> u.desc == newDesc.value
    ensures newDesc.None? ==> u.desc == t.desc
    ensures newCompleted.Some? ==> u.completed == newCompleted.value
    ensures newCompleted.None? ==> u.completed == t.completed
  {
    var t1 := if newDesc.Some? then t.(desc := newDesc.value) else t;
    if newCompleted.Some? then t1.(completed := newCompleted.value) else t1
  }

  /** `update_todo`: patches the first item carrying `id`. */
  function UpdateTodo(items: seq<Todo>, id: nat, newDesc: Option<string>, newCompleted: Option<bool>)
    : (r: Outcome<string>)
    ensures r.result == (if HasId(items, id) then UpdatedMsg else NotFoundMsg)
    ensures !HasId(items, id) ==> r.items == items
    ensures |r.items| == |items|
    ensures forall i :: 0 <= i < |items| && !IsFirstMatch(items, id, i) ==> r.items[i] == items[i]
    ensures forall i :: IsFirstMatch(items, id, i) ==>
              && r.items[i].id == id
              && r.items[i].desc == (match newDesc case Some(d) => d case None => items[i].desc)
              && r.items[i].completed == (match newCompleted case Some(c) => c case None => items[i].completed)
  {
    match FindFirst(items, id)
    case None => Outcome(items, NotFoundMsg)
    case Some(pos) =>
      assert forall i :: IsFirstMatch(items, id, i) ==> i == pos;
      Outcome(items[pos := Patch(items[pos], newDesc, newCompleted)], UpdatedMsg)
  }

  /** `delete_todo`: removes the first item carrying `id`; note that its
      success reply is the same text as `update_todo`'s. */
  function DeleteTodo(items: seq<Todo>, id: nat): (r: Outcome<string>)
    ensures r.result == (if HasId(items, id) then UpdatedMsg else NotFoundMsg)
    ensures !HasId(items, id) ==> r.items == items
    ensures forall pos :: IsFirstMatch(items, id, pos) ==>
              && |r.items| == |items| - 1
              && r.items == items[..pos] + items[pos + 1..]
  {
    match FindFirst(items, id)
    case None => Outcome(items, NotFoundMsg)
    case Some(pos) =>
      assert forall i :: IsFirstMatch(items, id, i) ==> i == pos;
      Outcome(items[..pos] + items[pos + 1..], UpdatedMsg)
  }

  /** `get_todos`: the stored items, unchanged and in stored order. */
  function GetTodos(items: seq<Todo>): (r: seq<Todo>)
    ensures r == items
  {
    items
  }

  /** A list built from creates alone has strictly increasing, hence
      distinct, ids. */
  lemma PositionalIdsIncrease(items: seq<Todo>)
    requires IdsArePositions(items)
    ensures StrictlyIncreasingIds(items)
    ensures forall i, j :: 0 <= i < |items| && 0 <= j < |items| && items[i].id == items[j].id ==> i == j
  {
  }

  /** `create_todo` keeps ids equal to positions. */
  lemma CreateKeepsPositionalIds(items: seq<Todo>, desc: string)
    requires IdsArePositions(items)
    ensures IdsArePositions(CreateTodo(items, desc).items)
  {
  }

  /** `update_todo` never changes an id, so it keeps ids equal to positions. */
  lemma UpdateKeepsPositionalIds(items: seq<Todo>, id: nat, newDesc: Option<string>, newCompleted: Option<bool>)
    requires IdsArePositions(items)
    ensures IdsArePositions(UpdateTodo(items, id, newDesc, newCompleted).items)
  {
  }

  /** `update_todo` with neither field supplied is a no-op, yet still reports
      success when the id is present. */
  lemma EmptyUpdateChangesNothing(items: seq<Todo>, id: nat)
    ensures UpdateTodo(items, id, None, None).items == items
    ensures HasId(items, id) ==> UpdateTodo(items, id, None, None).result == UpdatedMsg
  {
  }

  /** `delete_todo` keeps the relative order of the surviving items: the
      item at position `i` of the result is the one that was at `i`, or at
      `i + 1` once past the deleted position; and exactly the deleted item
      leaves the multiset of items. */
  lemma DeletePreservesOrder(items: seq<Todo>, id: nat, pos: nat)
    requires IsFirstMatch(items, id, pos)
    ensures var r := DeleteTodo(items, id).items;
      && |r| == |items| - 1
      && (forall i :: 0 <= i < |r| ==> r[i] == items[if i < pos then i else i + 1])
      && multiset(r) + multiset{items[pos]} == multiset(items)
  {
    var r := DeleteTodo(items, id).items;
    assert r == items[..pos] + items[pos + 1..];
    assert items == items[..pos] + [items[pos]] + items[pos + 1..];
  }
}
