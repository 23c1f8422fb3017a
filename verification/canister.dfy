/**
  The canister's entry points as one state machine.

  The persisted `TodoList` is the state; each call is applied atomically,
  since the host runs one call at a time. Query calls never write the state
  back, and a call that panics traps without saving, so neither changes it.
 */
module Canister {
  import opened TodoList
  import opened Pagination
  import opened Latest

  datatype Call =
    | InitCall
    | CreateCall(desc: string)
    | UpdateCall(id: nat, newDesc: Option<string>, newCompleted: Option<bool>)
    | DeleteCall(id: nat)
    | GetTodosCall
    | GetPageCall(pageNumber: nat, pageSize: nat)
    | GetLatestCall

  datatype Reply =
    | Done
    | NewId(id: nat)
    | Message(text: string)
    | Todos(todos: seq<Todo>)
    | Trapped

  predicate IsQuery(c: Call) {
    c.GetTodosCall? || c.GetPageCall? || c.GetLatestCall?
  }

  /** One call against the stored list. */
  function Step(items: seq<Todo>, c: Call): (r: Outcome<Reply>)
    ensures IsQuery(c) ==> r.items == items
    ensures c.DeleteCall? ==> |r.items| <= |items|
    ensures !c.InitCall? && !c.DeleteCall? ==> |r.items| >= |items|
    ensures r.result.Trapped? <==> c.GetPageCall? && c.pageNumber * c.pageSize > |items|
  {
    match c
    case InitCall => Outcome(Init(), Done)
    case CreateCall(desc) =>
      var o := CreateTodo(items, desc);
      Outcome(o.items, NewId(o.result))
    case UpdateCall(id, newDesc, newCompleted) =>
      var o := UpdateTodo(items, id, newDesc, newCompleted);
      Outcome(o.items, Message(o.result))
    case DeleteCall(id) =>
      var o := DeleteTodo(items, id);
      Outcome(o.items, Message(o.result))
    case GetTodosCall => Outcome(items, Todos(GetTodos(items)))
    case GetPageCall(pageNumber, pageSize) =>
      (match GetPaginatedTodos(items, pageNumber, pageSize)
       case Returned(todos) => Outcome(items, Todos(todos))
       case Panicked => Outcome(items, Trapped))
    case GetLatestCall => Outcome(items, Todos(GetLatestTodos(items)))
  }

  /** Runs the calls in order; the replies come back in call order. */
  function Run(items: seq<Todo>, calls: seq<Call>): (r: Outcome<seq<Reply>>)
    ensures |r.result| == |calls|
    ensures (forall i :: 0 <= i < |calls| ==> IsQuery(calls[i])) ==> r.items == items
    decreases |calls|
  {
    if |calls| == 0 then Outcome(items, [])
    else
      var first := Step(items, calls[0]);
      var rest := Run(first.items, calls[1..]);
      assert forall i :: 1 <= i < |calls| ==> calls[1..][i - 1] == calls[i];
      Outcome(rest.items, [first.result] + rest.result)
  }

  /** Every call except `delete_todo` keeps ids equal to positions. */
  lemma StepKeepsPositionalIds(items: seq<Todo>, c: Call)
    requires IdsArePositions(items)
    requires !c.DeleteCall?
    ensures IdsArePositions(Step(items, c).items)
  {
    match c
    case CreateCall(desc) => CreateKeepsPositionalIds(items, desc);
    case UpdateCall(id, newDesc, newCompleted) => UpdateKeepsPositionalIds(items, id, newDesc, newCompleted);
    case _ =>
  }

  /** Without deletes, a run from a list whose ids are its positions (such
      as the one `init` leaves) keeps that shape: the item at position `i`
      has id `i + 1`, so ids are distinct and strictly increasing. */
  lemma {:induction false} NoDeleteKeepsPositionalIds(items: seq<Todo>, calls: seq<Call>)
    requires IdsArePositions(items)
    requires forall i :: 0 <= i < |calls| ==> !calls[i].DeleteCall?
    ensures IdsArePositions(Run(items, calls).items)
    ensures StrictlyIncreasingIds(Run(items, calls).items)
    decreases |calls|
  {
    if |calls| > 0 {
      StepKeepsPositionalIds(items, calls[0]);
      NoDeleteKeepsPositionalIds(Step(items, calls[0]).items, calls[1..]);
    }
    PositionalIdsIncrease(Run(items, calls).items);
  }

  /** Without deletes, the ids returned by successive creates are the
      positions of the new items, so every create after `init` returns one
      more than the number of creates before it. */
  lemma CreateAfterInitReturnsCount(calls: seq<Call>, desc: string)
    requires |calls| > 0 && calls[0].InitCall?
    requires forall i :: 0 <= i < |calls| ==> !calls[i].DeleteCall?
    ensures var s := Run([], calls).items;
      Step(s, CreateCall(desc)).result == NewId(|s| + 1) && !HasId(s, |s| + 1)
  {
    NoDeleteKeepsPositionalIds([], calls);
  }

  /** Ids are not unique in general: whatever was stored before, `init`,
      two creates, deleting id 1 and creating again mints id 2 a second
      time, and that create repeats an id an earlier create returned. */
  lemma DeleteThenCreateDuplicatesId(stored: seq<Todo>)
    ensures var s0 := Step(stored, InitCall).items;
      var o1 := Step(s0, CreateCall("a"));
      var o2 := Step(o1.items, CreateCall("b"));
      var o3 := Step(o2.items, DeleteCall(1));
      var o4 := Step(o3.items, CreateCall("c"));
      && o2.result == NewId(2)
      && o4.result == NewId(2)
      && |o4.items| == 2
      && o4.items[0].id == 2 && o4.items[1].id == 2
      && o4.items[0] != o4.items[1]
  {
  }

  /** The end-to-end story: after `init`, two creates return ids 1 and 2;
      marking id 1 completed succeeds; deleting id 2 succeeds and leaves
      only id 1; deleting id 2 again is not found. */
  lemma EndToEndScenario(stored: seq<Todo>)
    ensures var s0 := Step(stored, InitCall).items;
      var o1 := Step(s0, CreateCall("buy milk"));
      var o2 := Step(o1.items, CreateCall("walk dog"));
      var o3 := Step(o2.items, UpdateCall(1, None, Some(true)));
      var o4 := Step(o3.items, GetTodosCall);
      var o5 := Step(o4.items, DeleteCall(2));
      var o6 := Step(o5.items, GetTodosCall);
      var o7 := Step(o6.items, DeleteCall(2));
      && o1.result == NewId(1)
      && o2.result == NewId(2)
      && o3.result == Message(UpdatedMsg)
      && o4.result == Todos([Todo(1, "buy milk", true), Todo(2, "walk dog", false)])
      && o5.result == Message(UpdatedMsg)
      && o6.result == Todos([Todo(1, "buy milk", true)])
      && o7.result == Message(NotFoundMsg)
  {
  }

  /** Fifteen creates after `init`: the latest todos are ids 15 down to 6. */
  lemma LatestAfterFifteenCreates(descs: seq<string>)
    requires |descs| == 15
    ensures var calls := [InitCall] + seq(15, i requires 0 <= i < 15 => CreateCall(descs[i]));
      var r := Run([], calls + [GetLatestCall]);
      && r.result[16].Todos?
      && |r.result[16].todos| == 10
      && forall i :: 0 <= i < 10 ==> r.result[16].todos[i].id == 15 - i
  {
    var calls := [InitCall] + seq(15, i requires 0 <= i < 15 => CreateCall(descs[i]));
    NoDeleteKeepsPositionalIds([], calls);
    RunAppend([], calls, GetLatestCall);
    var s := Run([], calls).items;
    assert |s| == 15 by { CreatesGrowByOne(calls); }
    LatestOfPositionalIds(s);
  }

  /** Running `calls + [c]` is running `calls`, then one more step. */
  lemma {:induction false} RunAppend(items: seq<Todo>, calls: seq<Call>, c: Call)
    ensures var before := Run(items, calls);
      var after := Run(items, calls + [c]);
      && after.items == Step(before.items, c).items
      && after.result == before.result + [Step(before.items, c).result]
    decreases |calls|
  {
    if |calls| == 0 {
      assert calls + [c] == [c];
    } else {
      assert (calls + [c])[0] == calls[0];
      assert (calls + [c])[1..] == calls[1..] + [c];
      RunAppend(Step(items, calls[0]).items, calls[1..], c);
    }
  }

  /** `init` followed by creates only leaves one item per create. */
  lemma CreatesGrowByOne(calls: seq<Call>)
    requires |calls| > 0 && calls[0].InitCall?
    requires forall i :: 1 <= i < |calls| ==> calls[i].CreateCall?
    ensures |Run([], calls).items| == |calls| - 1
  {
    CreatesCount(Init(), calls[1..]);
    assert calls == [calls[0]] + calls[1..];
  }

  lemma {:induction false} CreatesCount(items: seq<Todo>, calls: seq<Call>)
    requires forall i :: 0 <= i < |calls| ==> calls[i].CreateCall?
    ensures |Run(items, calls).items| == |items| + |calls|
    decreases |calls|
  {
    if |calls| > 0 {
      CreatesCount(Step(items, calls[0]).items, calls[1..]);
    }
  }
}
