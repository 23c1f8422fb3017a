/**
  `get_paginated_todos`: a positional slice of the stored items.

  The page starts at `page_number * page_size` and ends at
  `min(start + page_size, len)`. Rust slicing panics when the start exceeds
  the end, which happens exactly when the start lies past the end of the
  list; the canister call then traps. That outcome is `Panicked` here.
 */
module Pagination {
  import opened TodoList

  datatype Page = Returned(todos: seq<Todo>) | Panicked

  function Min(a: nat, b: nat): nat {
    if a <= b then a else b
  }

  function GetPaginatedTodos(items: seq<Todo>, pageNumber: nat, pageSize: nat): (r: Page)
    ensures r.Panicked? <==> pageNumber * pageSize > |items|
    ensures r.Returned? ==> |r.todos| == Min(pageSize, |items| - pageNumber * pageSize)
    ensures r.Returned? ==>
              forall k :: 0 <= k < |r.todos| ==> r.todos[k] == items[pageNumber * pageSize + k]
  {
    var start := pageNumber * pageSize;
    var end := Min(start + pageSize, |items|);
    if start > end then Panicked else Returned(items[start..end])
  }

  /** A page never holds more than `page_size` items. */
  lemma PageAtMostPageSize(items: seq<Todo>, pageNumber: nat, pageSize: nat)
    ensures GetPaginatedTodos(items, pageNumber, pageSize).Returned? ==>
              |GetPaginatedTodos(items, pageNumber, pageSize).todos| <= pageSize
  {
  }

  /** A page size of zero yields the empty page for every page number. */
  lemma ZeroPageSizeIsEmpty(items: seq<Todo>, pageNumber: nat)
    ensures GetPaginatedTodos(items, pageNumber, 0) == Returned([])
  {
  }

  /** Page zero of size `len` is the whole list. */
  lemma FirstFullPageIsEverything(items: seq<Todo>)
    ensures GetPaginatedTodos(items, 0, |items|) == Returned(items)
  {
  }

  /** A page that starts exactly at the end of the list is empty, and one
      that starts any later panics. */
  lemma PageAtOrPastEnd(items: seq<Todo>, pageNumber: nat, pageSize: nat)
    ensures pageNumber * pageSize == |items| ==> GetPaginatedTodos(items, pageNumber, pageSize) == Returned([])
    ensures pageNumber * pageSize > |items| ==> GetPaginatedTodos(items, pageNumber, pageSize) == Panicked
  {
  }

  /** The concatenation of pages `0 .. n-1`; defined while none of them panics. */
  function ReadPages(items: seq<Todo>, pageSize: nat, n: nat): seq<Todo>
    requires n == 0 || (n - 1) * pageSize <= |items|
  {
    if n == 0 then []
    else
      assert (n - 2) * pageSize <= (n - 1) * pageSize || n == 1;
      ReadPages(items, pageSize, n - 1) + GetPaginatedTodos(items, n - 1, pageSize).todos
  }

  /** Reading pages `0 .. n-1` in turn yields the list's first
      `min(n * page_size, len)` items, in stored order. */
  lemma {:induction false} ReadPagesIsPrefix(items: seq<Todo>, pageSize: nat, n: nat)
    requires n == 0 || (n - 1) * pageSize <= |items|
    ensures ReadPages(items, pageSize, n) == items[..Min(n * pageSize, |items|)]
  {
    if n > 0 {
      var m := n - 1;
      assert m * pageSize + pageSize == n * pageSize;
      assert m == 0 || (m - 1) * pageSize <= m * pageSize;
      ReadPagesIsPrefix(items, pageSize, m);
      var page := GetPaginatedTodos(items, m, pageSize).todos;
      var lo := m * pageSize;
      var hi := Min(n * pageSize, |items|);
      assert page == items[lo..hi];
      assert items[..hi] == items[..lo] + items[lo..hi];
    }
  }

  /** With a non-zero page size, the pages up to the one that reaches the
      end of the list cover every item exactly once, in stored order. */
  lemma PagesCoverList(items: seq<Todo>, pageSize: nat, n: nat)
    requires pageSize > 0
    requires n > 0 && (n - 1) * pageSize <= |items| <= n * pageSize
    ensures ReadPages(items, pageSize, n) == items
  {
    ReadPagesIsPrefix(items, pageSize, n);
  }
}
