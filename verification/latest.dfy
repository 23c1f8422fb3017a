/**
  `get_latest_todos`: stable sort by id, reverse, keep the first ten.

  Rust's `sort_by_key` is a stable sort, so items with equal ids keep their
  stored order; reversing then puts the highest ids first and, among equal
  ids, the later-stored item first.
 */
module Latest {
  import opened TodoList

  /** How many items `get_latest_todos` returns at most. */
  const LatestCount: nat := 10

  predicate SortedById(s: seq<Todo>) {
    forall i, j :: 0 <= i < j < |s| ==> s[i].id <= s[j].id
  }

  predicate NonIncreasingIds(s: seq<Todo>) {
    forall i, j :: 0 <= i < j < |s| ==> s[i].id >= s[j].id
  }

  /** The items of `s` whose id is `k`, in the order of `s`. Keeping every
      such subsequence is what makes a sort stable. */
  function WithId(s: seq<Todo>, k: nat): seq<Todo> {
    if |s| == 0 then []
    else (if s[0].id == k then [s[0]] else []) + WithId(s[1..], k)
  }

  /** Inserts `t` before the first element whose id is not smaller. */
  function InsertById(t: Todo, s: seq<Todo>): (r: seq<Todo>)
    ensures |r| == |s| + 1
    ensures multiset(r) == multiset(s) + multiset{t}
  {
    if |s| == 0 || t.id <= s[0].id then [t] + s
    else
      assert s == [s[0]] + s[1..];
      [s[0]] + InsertById(t, s[1..])
  }

  /** Inserting into a list sorted by id keeps it sorted. */
  lemma {:induction false} InsertByIdKeepsSorted(t: Todo, s: seq<Todo>)
    requires SortedById(s)
    ensures SortedById(InsertById(t, s))
  {
    if |s| > 0 && t.id > s[0].id {
      var rest := InsertById(t, s[1..]);
      InsertByIdKeepsSorted(t, s[1..]);
      forall j | 0 <= j < |rest| ensures s[0].id <= rest[j].id {
        assert rest[j] in multiset(s[1..]) + multiset{t};
        if rest[j] != t {
          assert rest[j] in s[1..];
        }
      }
      assert InsertById(t, s) == [s[0]] + rest;
    }
  }

  /** Stable insertion sort by ascending id. */
  function SortById(s: seq<Todo>): (r: seq<Todo>)
    ensures |r| == |s|
    ensures multiset(r) == multiset(s)
    ensures SortedById(r)
  {
    if |s| == 0 then []
    else
      assert s == [s[0]] + s[1..];
      InsertByIdKeepsSorted(s[0], SortById(s[1..]));
      InsertById(s[0], SortById(s[1..]))
  }

  function Reverse(s: seq<Todo>): (r: seq<Todo>)
    ensures |r| == |s|
    ensures forall i :: 0 <= i < |s| ==> r[i] == s[|s| - 1 - i]
  {
    if |s| == 0 then [] else Reverse(s[1..]) + [s[0]]
  }

  function GetLatestTodos(items: seq<Todo>): (r: seq<Todo>)
    ensures |r| == if |items| < LatestCount then |items| else LatestCount
    ensures NonIncreasingIds(r)
    ensures multiset(r) <= multiset(items)
  {
    var desc := Reverse(SortById(items));
    var n := if |desc| < LatestCount then |desc| else LatestCount;
    ReverseOfSortedDescends(SortById(items));
    ReverseSameMultiset(SortById(items));
    TakeKeepsDescending(desc, n);
    desc[..n]
  }

  lemma {:induction false} ReverseSameMultiset(s: seq<Todo>)
    ensures multiset(Reverse(s)) == multiset(s)
  {
    if |s| > 0 {
      ReverseSameMultiset(s[1..]);
      assert s == [s[0]] + s[1..];
    }
  }

  /** Inserting `t` adds it to the subsequence of its own id and leaves
      every other id's subsequence alone. */
  lemma {:induction false} InsertByIdWithId(t: Todo, s: seq<Todo>, k: nat)
    ensures WithId(InsertById(t, s), k) == (if t.id == k then [t] else []) + WithId(s, k)
  {
    if |s| == 0 || t.id <= s[0].id {
      assert ([t] + s)[1..] == s;
    } else {
      InsertByIdWithId(t, s[1..], k);
      var r := InsertById(t, s);
      var head := if s[0].id == k then [s[0]] else [];
      assert r[0] == s[0] && r[1..] == InsertById(t, s[1..]);
      assert WithId(r, k) == head + WithId(InsertById(t, s[1..]), k);
      assert WithId(s, k) == head + WithId(s[1..], k);
      // s[0] has a smaller id than t, so at most one of them has id k
      assert s[0].id == k ==> t.id != k;
    }
  }

  /** `SortById` is stable: for every id, the items carrying it appear in
      the result in the order they were stored. */
  lemma {:induction false} SortByIdIsStable(s: seq<Todo>, k: nat)
    ensures WithId(SortById(s), k) == WithId(s, k)
  {
    if |s| > 0 {
      SortByIdIsStable(s[1..], k);
      InsertByIdWithId(s[0], SortById(s[1..]), k);
    }
  }

  lemma {:induction false} WithIdMembership(s: seq<Todo>, k: nat, x: Todo)
    ensures x in WithId(s, k) <==> x in s && x.id == k
  {
    if |s| > 0 {
      WithIdMembership(s[1..], k, x);
      assert s == [s[0]] + s[1..];
    }
  }

  /** A sorted sequence whose first item has id `k` starts its `k`
      subsequence with that item. */
  lemma WithIdHead(s: seq<Todo>)
    requires |s| > 0
    ensures WithId(s, s[0].id) == [s[0]] + WithId(s[1..], s[0].id)
    ensures forall k :: k != s[0].id ==> WithId(s, k) == WithId(s[1..], k)
  {
  }

  /** Sortedness and stability determine the result completely: any
      sequence sorted by id that keeps every id's subsequence of `s` is
      exactly `SortById(s)`. */
  lemma SortByIdIsTheStableSort(s: seq<Todo>, r: seq<Todo>)
    requires SortedById(r)
    requires forall k :: WithId(r, k) == WithId(s, k)
    ensures r == SortById(s)
  {
    var q := SortById(s);
    forall k ensures WithId(r, k) == WithId(q, k) {
      SortByIdIsStable(s, k);
    }
    SortedSameFiltersEqual(r, q);
  }

  lemma {:induction false} SortedSameFiltersEqual(a: seq<Todo>, b: seq<Todo>)
    requires SortedById(a) && SortedById(b)
    requires forall k :: WithId(a, k) == WithId(b, k)
    ensures a == b
    decreases |a|
  {
    if |a| == 0 {
      if |b| > 0 {
        WithIdHead(b);
        assert false;
      }
    } else if |b| == 0 {
      WithIdHead(a);
      assert false;
    } else {
      WithIdHead(a);
      WithIdHead(b);
      // a[0] lies in b's subsequence of id a[0].id, so b[0].id <= a[0].id
      assert a[0] in WithId(b, a[0].id);
      WithIdMembership(b, a[0].id, a[0]);
      assert b[0] in WithId(a, b[0].id);
      WithIdMembership(a, b[0].id, b[0]);
      var k := a[0].id;
      assert b[0].id == k;
      assert WithId(a, k)[0] == a[0] && WithId(b, k)[0] == b[0];
      forall j ensures WithId(a[1..], j) == WithId(b[1..], j) {
        if j == k {
          assert WithId(a, k)[1..] == WithId(a[1..], k);
          assert WithId(b, k)[1..] == WithId(b[1..], k);
        } else {
          assert WithId(a, j) == WithId(a[1..], j);
          assert WithId(b, j) == WithId(b[1..], j);
        }
      }
      SortedSameFiltersEqual(a[1..], b[1..]);
      assert a == [a[0]] + a[1..];
      assert b == [b[0]] + b[1..];
    }
  }

  /** Every item left out of the latest ten has an id no larger than any
      item returned. */
  lemma LatestAreTopIds(items: seq<Todo>)
    ensures forall e, x :: e in multiset(items) - multiset(GetLatestTodos(items)) && x in GetLatestTodos(items)
              ==> e.id <= x.id
  {
    var sorted := SortById(items);
    var desc := Reverse(sorted);
    var n := if |desc| < LatestCount then |desc| else LatestCount;
    LatestIsPrefix(items);
    ReverseSameMultiset(sorted);
    ReverseOfSortedDescends(sorted);
    PrefixOfDescendingIsTop(items, desc, n);
  }

  /** A prefix of a permutation of `items` in non-increasing id order holds
      ids no smaller than any item of `items` it leaves out. */
  lemma PrefixOfDescendingIsTop(items: seq<Todo>, d: seq<Todo>, n: nat)
    requires NonIncreasingIds(d)
    requires multiset(d) == multiset(items)
    requires n <= |d|
    ensures forall e, x :: e in multiset(items) - multiset(d[..n]) && x in d[..n] ==> e.id <= x.id
  {
    SplitMultiset(d, n);
    assert multiset(items) - multiset(d[..n]) == multiset(d[n..]);
    PrefixDominatesSuffix(d, n);
  }

  lemma SplitMultiset(s: seq<Todo>, n: nat)
    requires n <= |s|
    ensures multiset(s) == multiset(s[..n]) + multiset(s[n..])
  {
    assert s == s[..n] + s[n..];
  }

  /** A prefix of a list in non-increasing id order keeps that order and
      holds part of the list's multiset. */
  lemma TakeKeepsDescending(d: seq<Todo>, n: nat)
    requires NonIncreasingIds(d)
    requires n <= |d|
    ensures NonIncreasingIds(d[..n])
    ensures multiset(d[..n]) <= multiset(d)
  {
    SplitMultiset(d, n);
  }

  lemma ReverseOfSortedDescends(s: seq<Todo>)
    requires SortedById(s)
    ensures NonIncreasingIds(Reverse(s))
  {
  }

  lemma PrefixDominatesSuffix(d: seq<Todo>, n: nat)
    requires NonIncreasingIds(d)
    requires n <= |d|
    ensures forall e, x :: e in multiset(d[n..]) && x in d[..n] ==> e.id <= x.id
  {
  }

  /** Two items of id `k` at positions `a < b` of `s` appear in that order
      in `WithId(s, k)`. */
  lemma {:induction false} WithIdKeepsOrder(s: seq<Todo>, k: nat, a: nat, b: nat)
    requires a < b < |s|
    requires s[a].id == k && s[b].id == k
    ensures exists p, q :: 0 <= p < q < |WithId(s, k)| && WithId(s, k)[p] == s[a] && WithId(s, k)[q] == s[b]
  {
    var w := WithId(s, k);
    var tail := WithId(s[1..], k);
    if a == 0 {
      assert w == [s[0]] + tail;
      WithIdMembership(s[1..], k, s[b]);
      assert s[b] == s[1..][b - 1];
      var q' :| 0 <= q' < |tail| && tail[q'] == s[b];
      assert w[0] == s[a] && w[q' + 1] == s[b];
    } else {
      WithIdKeepsOrder(s[1..], k, a - 1, b - 1);
      var p', q' :| 0 <= p' < q' < |tail| && tail[p'] == s[1..][a - 1] && tail[q'] == s[1..][b - 1];
      var h := if s[0].id == k then 1 else 0;
      assert w == (if s[0].id == k then [s[0]] else []) + tail;
      assert w[p' + h] == s[a] && w[q' + h] == s[b];
    }
  }

  /** Ties among the latest todos: when two returned items share an id, the
      one returned first is the one stored later, since the stable sort
      keeps their stored order and the reverse flips it. */
  lemma LatestTieBreak(items: seq<Todo>, i: nat, j: nat)
    requires i < j < |GetLatestTodos(items)|
    requires GetLatestTodos(items)[i].id == GetLatestTodos(items)[j].id
    ensures var r := GetLatestTodos(items);
      var w := WithId(items, r[i].id);
      exists p, q :: 0 <= p < q < |w| && w[p] == r[j] && w[q] == r[i]
  {
    var r := GetLatestTodos(items);
    var sorted := SortById(items);
    LatestIsSortedFromTheEnd(items);
    var a, b := |sorted| - 1 - j, |sorted| - 1 - i;
    assert sorted[a] == r[j] && sorted[b] == r[i];
    SortKeepsTiesInStoredOrder(items, a, b);
  }

  /** Two items of equal id at positions `a < b` of the sorted list appear
      in that order among the stored items of that id. */
  lemma SortKeepsTiesInStoredOrder(items: seq<Todo>, a: nat, b: nat)
    requires a < b < |SortById(items)|
    requires SortById(items)[a].id == SortById(items)[b].id
    ensures var sorted := SortById(items);
      var w := WithId(items, sorted[a].id);
      exists p, q :: 0 <= p < q < |w| && w[p] == sorted[a] && w[q] == sorted[b]
  {
    var sorted := SortById(items);
    var k := sorted[a].id;
    WithIdKeepsOrder(sorted, k, a, b);
    SortByIdIsStable(items, k);
  }

  /** Position `x` of the latest todos is position `len - 1 - x` of the
      list sorted by id. */
  lemma LatestIsSortedFromTheEnd(items: seq<Todo>)
    ensures forall x :: 0 <= x < |GetLatestTodos(items)| ==>
              GetLatestTodos(items)[x] == SortById(items)[|items| - 1 - x]
  {
    LatestIsPrefix(items);
  }

  /** The latest todos are the first `min(10, len)` items of the list
      sorted by id and reversed. */
  lemma LatestIsPrefix(items: seq<Todo>)
    ensures var desc := Reverse(SortById(items));
      GetLatestTodos(items) == desc[..if |desc| < LatestCount then |desc| else LatestCount]
  {
  }

  /** A list whose ids increase is already sorted, so the sort leaves it as is. */
  lemma {:induction false} SortByIdOfSorted(s: seq<Todo>)
    requires SortedById(s)
    ensures SortById(s) == s
  {
    if |s| > 0 {
      SortByIdOfSorted(s[1..]);
      assert s == [s[0]] + s[1..];
    }
  }

  /** On a list built by creates alone, `get_latest_todos` returns the last
      `min(10, len)` items, newest first, with ids `len, len-1, ...`. */
  lemma LatestOfPositionalIds(items: seq<Todo>)
    requires IdsArePositions(items)
    ensures forall i :: 0 <= i < |GetLatestTodos(items)| ==>
              && GetLatestTodos(items)[i] == items[|items| - 1 - i]
              && GetLatestTodos(items)[i].id == |items| - i
  {
    SortByIdOfSorted(items);
  }
}
