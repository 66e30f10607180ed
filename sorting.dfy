// Sorting as the programs use it (`std::sort`, Python `sort`/`sorted`):
// the result is ordered by a total preorder and is a permutation of the
// input. Which of several equal-keyed elements comes first is not fixed
// by `std::sort`; a contract stated over a preorder leaves it open.
module Sorting {
  import opened Common

  /** `le` is total and transitive, so it orders any sequence. */
  ghost predicate TotalPreorder<T(!new)>(le: (T, T) -> bool)
  {
    (forall a, b :: le(a, b) || le(b, a))
    && (forall a, b, c :: le(a, b) && le(b, c) ==> le(a, c))
  }

  predicate SortedBy<T>(s: seq<T>, le: (T, T) -> bool)
  {
    forall i, j :: 0 <= i < j < |s| ==> le(s[i], s[j])
  }

  function InsertBy<T(!new)>(x: T, s: seq<T>, le: (T, T) -> bool): (r: seq<T>)
    requires TotalPreorder(le) && SortedBy(s, le)
    ensures SortedBy(r, le) && multiset(r) == multiset(s) + multiset{x}
    decreases |s|
  {
    if |s| == 0 then [x]
    else if le(x, s[0]) then
      assert forall j :: 0 <= j < |s| ==> le(x, s[j]);
      [x] + s
    else
      var r' := InsertBy(x, s[1..], le);
      assert s == [s[0]] + s[1..];
      forall y | y in r'
        ensures le(s[0], y)
      {
        assert y in multiset(r');
        if y != x {
          assert y in multiset(s[1..]);
        }
      }
      [s[0]] + r'
  }

  /** `std::sort` / `list.sort()`: an ordered permutation. */
  method SortBy<T(!new)>(items: seq<T>, le: (T, T) -> bool) returns (r: seq<T>)
    requires TotalPreorder(le)
    ensures SortedBy(r, le) && multiset(r) == multiset(items)
  {
    r := [];
    var i := 0;
    while i < |items|
      invariant 0 <= i <= |items|
      invariant SortedBy(r, le) && multiset(r) == multiset(items[..i])
    {
      assert items[..i + 1] == items[..i] + [items[i]];
      r := InsertBy(items[i], r, le);
      i := i + 1;
    }
    assert items[..i] == items;
  }

  /** Pairs `(distance, id)` compared by distance alone, as the C++ k-NN
      comparators do. */
  function ByKey(): ((real, int), (real, int)) -> bool
  {
    (a: (real, int), b: (real, int)) => a.0 <= b.0
  }

  /** Python's tuple order on `(distance, id)`: ties go to the smaller id. */
  function ByKeyThenId(): ((real, int), (real, int)) -> bool
  {
    (a: (real, int), b: (real, int)) => a.0 < b.0 || (a.0 == b.0 && a.1 <= b.1)
  }

  function RealLe(): (real, real) -> bool
  {
    (a: real, b: real) => a <= b
  }

  function IntLe(): (int, int) -> bool
  {
    (a: int, b: int) => a <= b
  }

  lemma Preorders()
    ensures TotalPreorder(ByKey()) && TotalPreorder(ByKeyThenId())
    ensures TotalPreorder(RealLe()) && TotalPreorder(IntLe())
  {
  }

  /** The ids of a list of `(distance, id)` pairs, in order. */
  function Ids(s: seq<(real, int)>): (r: seq<int>)
    ensures |r| == |s| && forall i :: 0 <= i < |s| ==> r[i] == s[i].1
  {
    if |s| == 0 then [] else [s[0].1] + Ids(s[1..])
  }

  /** How many of `n` ranked items a `while (out.size() < k)` loop keeps. */
  function Clip(k: int, n: nat): (m: nat)
    ensures m <= n && (k <= 0 ==> m == 0) && (k >= n ==> m == n) && (0 <= k < n ==> m == k)
  {
    if k <= 0 then 0 else if k < n then k else n
  }

  /** How many of `n` ranked items `while (out.size() < k)` keeps when the
      size is unsigned: a negative `k` converts to a bound above any size, so
      every item is kept. */
  function UClip(k: int, n: nat): (m: nat)
    ensures m <= n && (k < 0 ==> m == n) && (k >= 0 ==> m == Clip(k, n))
  {
    if k < 0 then n else Clip(k, n)
  }

  predicate Increasing(s: seq<int>)
  {
    forall i, j :: 0 <= i < j < |s| ==> s[i] < s[j]
  }

  /** A set listed in increasing order, as a `std::set<int>` iterates. */
  method SortedSet(s: set<int>) returns (r: seq<int>)
    ensures Increasing(r) && forall x :: x in r <==> x in s
  {
    var items: seq<int> := [];
    var rest := s;
    while rest != {}
      invariant rest <= s && Distinct(items)
      invariant forall x :: x in s <==> x in rest || x in items
      invariant forall x :: x in items ==> x !in rest
      decreases |rest|
    {
      var x := Pick(rest);
      items, rest := items + [x], rest - {x};
    }
    Preorders();
    r := SortBy(items, IntLe());
    forall i, j | 0 <= i < j < |r|
      ensures r[i] < r[j]
    {
      DistinctSorted(items, r, i, j);
    }
    forall x
      ensures x in r <==> x in s
    {
      assert x in r <==> x in multiset(r);
      assert x in items <==> x in multiset(items);
    }
  }

  lemma DistinctSorted(items: seq<int>, r: seq<int>, i: int, j: int)
    requires Distinct(items) && multiset(r) == multiset(items) && SortedBy(r, IntLe())
    requires 0 <= i < j < |r|
    ensures r[i] < r[j]
  {
    PermDistinct(items, r);
  }

  /** A permutation of a sequence without repetitions has none either. */
  lemma PermDistinct<T>(a: seq<T>, b: seq<T>)
    requires Distinct(a) && multiset(a) == multiset(b)
    ensures Distinct(b)
  {
    forall i, j | 0 <= i < j < |b|
      ensures b[i] != b[j]
    {
      if b[i] == b[j] {
        var x := b[i];
        assert multiset(b)[x] >= 2 by {
          assert b == b[..i] + [x] + b[i + 1..j] + [x] + b[j + 1..];
          assert multiset(b) == multiset(b[..i]) + multiset{x} + multiset(b[i + 1..j]) + multiset{x} + multiset(b[j + 1..]);
        }
        DistinctCount(a, x);
      }
    }
  }

  /** Reordering pairs whose ids are distinct keeps the ids distinct. */
  lemma PermDistinctIds(a: seq<(real, int)>, b: seq<(real, int)>)
    requires Distinct(Ids(a)) && multiset(a) == multiset(b)
    ensures Distinct(Ids(b)) && forall id :: id in Ids(b) <==> id in Ids(a)
  {
    PermIdsDistinct(a, b);
    forall id
      ensures id in Ids(b) <==> id in Ids(a)
    {
      if id in Ids(b) {
        PermIdIn(a, b, id);
      }
      if id in Ids(a) {
        PermIdIn(b, a, id);
      }
    }
  }

  /** Reordering pairs whose ids are distinct keeps the ids distinct. */
  lemma PermIdsDistinct(a: seq<(real, int)>, b: seq<(real, int)>)
    requires Distinct(Ids(a)) && multiset(a) == multiset(b)
    ensures Distinct(Ids(b))
  {
    assert Distinct(a);
    PermDistinct(a, b);
    forall i, j | 0 <= i < j < |b|
      ensures b[i].1 != b[j].1
    {
      assert b[i] in multiset(a) && b[j] in multiset(a);
      var x :| 0 <= x < |a| && a[x] == b[i];
      var y :| 0 <= y < |a| && a[y] == b[j];
    }
  }

  /** Reordering keeps the set of ids. */
  lemma PermIdIn(a: seq<(real, int)>, b: seq<(real, int)>, id: int)
    requires multiset(a) == multiset(b) && id in Ids(b)
    ensures id in Ids(a)
  {
    var i :| 0 <= i < |b| && Ids(b)[i] == id;
    assert b[i] in multiset(a);
    var x :| 0 <= x < |a| && a[x] == b[i];
    assert Ids(a)[x] == id;
  }

  /** A sequence without repetitions has as many elements as its set. */
  lemma {:induction false} DistinctCard(s: seq<int>)
    requires Distinct(s)
    ensures |ToSet(s)| == |s|
  {
    if |s| > 0 {
      var t := s[1..];
      assert Distinct(t);
      DistinctCard(t);
      assert ToSet(s) == {s[0]} + ToSet(t);
      assert s[0] !in ToSet(t);
    }
  }

  /** `for (i = 0; i < v.size() && out.size() < k; i++) out.push_back(v[i].id)`:
      the ids of the first `k` items (none when `k <= 0`). */
  method TakeIds(sorted: seq<(real, int)>, k: int) returns (out: seq<int>)
    ensures out == Ids(sorted)[..Clip(k, |sorted|)]
  {
    out := [];
    var i := 0;
    while i < |sorted| && |out| < k
      invariant 0 <= i <= |sorted| && |out| == i && (i == 0 || i <= k)
      invariant out == Ids(sorted)[..i]
    {
      out := out + [sorted[i].1];
      i := i + 1;
    }
  }

  lemma {:induction false} DistinctCount<T>(s: seq<T>, x: T)
    requires Distinct(s)
    ensures multiset(s)[x] <= 1
  {
    if |s| > 0 {
      assert s == [s[0]] + s[1..];
      assert Distinct(s[1..]);
      DistinctCount(s[1..], x);
      if s[0] == x {
        assert x !in s[1..];
      }
    }
  }
  /** Two ordered lists of integers are equal exactly when they hold the
      same elements with the same multiplicities: `sorted(a) == sorted(b)`
      compares multisets. */
  lemma {:induction false} SortedUnique(a: seq<int>, b: seq<int>)
    requires SortedBy(a, IntLe()) && SortedBy(b, IntLe())
    ensures a == b <==> multiset(a) == multiset(b)
  {
    if multiset(a) == multiset(b) && |a| > 0 {
      SortedHeads(a, b);
      SameTails(a, b);
      SortedTail(a);
      SortedTail(b);
      SortedUnique(a[1..], b[1..]);
      assert a == [a[0]] + a[1..] && b == [b[0]] + b[1..];
    }
  }

  /** Two ordered lists with the same elements start alike. */
  lemma SortedHeads(a: seq<int>, b: seq<int>)
    requires SortedBy(a, IntLe()) && SortedBy(b, IntLe())
    requires multiset(a) == multiset(b) && |a| > 0
    ensures |b| == |a| && a[0] == b[0]
  {
    assert |b| == |multiset(b)| == |multiset(a)| == |a|;
    assert a[0] in multiset(b) && b[0] in multiset(a);
    var i :| 0 <= i < |b| && b[i] == a[0];
    var j :| 0 <= j < |a| && a[j] == b[0];
    assert i == 0 || IntLe()(b[0], b[i]);
    assert j == 0 || IntLe()(a[0], a[j]);
  }

  /** Taking away equal first elements leaves equal multisets. */
  lemma SameTails(a: seq<int>, b: seq<int>)
    requires multiset(a) == multiset(b) && |a| > 0 && |b| > 0 && a[0] == b[0]
    ensures multiset(a[1..]) == multiset(b[1..])
  {
    assert a == [a[0]] + a[1..] && b == [b[0]] + b[1..];
    assert multiset(a[1..]) == multiset(a) - multiset{a[0]};
    assert multiset(b[1..]) == multiset(b) - multiset{b[0]};
  }

  /** The tail of an ordered list is ordered. */
  lemma SortedTail(a: seq<int>)
    requires SortedBy(a, IntLe()) && |a| > 0
    ensures SortedBy(a[1..], IntLe())
  {
    forall i, j | 0 <= i < j < |a| - 1
      ensures IntLe()(a[1..][i], a[1..][j])
    {
      assert IntLe()(a[i + 1], a[j + 1]);
    }
  }
}
