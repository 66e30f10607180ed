// The Phase-2 grading helpers: the tolerance match between the lengths a
// submission reports and the expected ones, the hop set of a node path, and
// the overlap-and-detour penalty of a set of alternative paths.
module GraderPhase2 {
  import opened Common
  import opened RealArith
  import Sorting
  import Overlap

  // ----- compare_lengths -----

  predicate Ascending(s: seq<real>)
  {
    Sorting.SortedBy(s, Sorting.RealLe())
  }

  /** Equal sizes, and no reported length above its expected partner by
      more than 0.1 (a lower one is accepted). */
  predicate LengthsMatch(reported: seq<real>, expected: seq<real>)
  {
    |reported| == |expected| && forall i :: 0 <= i < |reported| ==> reported[i] - expected[i] <= 0.1
  }

  /** `compare_lengths`: both lists are sorted in place (returned here as
      `sorted1` and `sorted2`), then 0 on a size mismatch or as soon as a
      pair is more than 0.1 apart the wrong way, and 1 otherwise. */
  method CompareLengths(length1: seq<real>, length2: seq<real>) returns (r: int, sorted1: seq<real>, sorted2: seq<real>)
    ensures Ascending(sorted1) && multiset(sorted1) == multiset(length1)
    ensures Ascending(sorted2) && multiset(sorted2) == multiset(length2)
    ensures r == if LengthsMatch(sorted1, sorted2) then 1 else 0
  {
    Sorting.Preorders();
    sorted1 := Sorting.SortBy(length1, Sorting.RealLe());
    sorted2 := Sorting.SortBy(length2, Sorting.RealLe());
    if |sorted1| != |sorted2| {
      return 0, sorted1, sorted2;
    }
    var i := 0;
    while i < |sorted1|
      invariant 0 <= i <= |sorted1|
      invariant forall j :: 0 <= j < i ==> sorted1[j] - sorted2[j] <= 0.1
    {
      if sorted1[i] - sorted2[i] > 0.1 {
        return 0, sorted1, sorted2;
      }
      i := i + 1;
    }
    r := 1;
  }

  /** An ascending list of reals is fixed by its multiset. */
  lemma {:induction false} AscendingUnique(a: seq<real>, b: seq<real>)
    requires Ascending(a) && Ascending(b) && multiset(a) == multiset(b)
    ensures a == b
  {
    if |a| > 0 {
      assert |b| == |multiset(b)| == |multiset(a)| == |a|;
      assert a[0] in multiset(b) && b[0] in multiset(a);
      assert a[0] in b && b[0] in a;
      assert b[0] <= a[0] && a[0] <= b[0];
      var x := a[0];
      assert multiset(a) == multiset{x} + multiset(a[1..]) by {
        assert a == [x] + a[1..];
      }
      assert multiset(b) == multiset{x} + multiset(b[1..]) by {
        assert b == [x] + b[1..];
      }
      forall e
        ensures multiset(a[1..])[e] == multiset(b[1..])[e]
      {
        assert multiset(a)[e] == multiset(b)[e];
      }
      assert multiset(a[1..]) == multiset(b[1..]);
      AscendingUnique(a[1..], b[1..]);
    }
  }

  /** The verdict depends on the lengths reported and expected, not on the
      order they are listed in. */
  lemma MatchOrderFree(a1: seq<real>, a2: seq<real>, b1: seq<real>, b2: seq<real>)
    requires Ascending(a1) && Ascending(a2) && multiset(a1) == multiset(a2)
    requires Ascending(b1) && Ascending(b2) && multiset(b1) == multiset(b2)
    ensures LengthsMatch(a1, b1) == LengthsMatch(a2, b2)
  {
    AscendingUnique(a1, a2);
    AscendingUnique(b1, b2);
  }

  /** The tolerance is one-sided: a shorter report passes, a longer one
      fails. */
  lemma MatchOneSided()
    ensures LengthsMatch([5.0], [5.2])
    ensures !LengthsMatch([5.2], [5.0])
  {
    var a, b := [5.2], [5.0];
    assert a[0] - b[0] > 0.1;
  }

  // ----- get_edges_from_node_list -----

  /** `get_edges_from_node_list`: the set of consecutive node pairs. */
  function EdgesOf(path: seq<int>): set<(int, int)>
  {
    Overlap.PairSet(path)
  }

  /** A path of `n` nodes has at most `n - 1` distinct hops, and none when
      it has at most one node. */
  lemma {:induction false} EdgesCard(path: seq<int>)
    ensures |path| <= 1 ==> EdgesOf(path) == {}
    ensures |path| >= 1 ==> |EdgesOf(path)| <= |path| - 1
  {
    if |path| >= 2 {
      var pre := path[..|path| - 1];
      var last := (path[|path| - 2], path[|path| - 1]);
      assert EdgesOf(path) == EdgesOf(pre) + {last} by {
        forall e | e in EdgesOf(path)
          ensures e in EdgesOf(pre) + {last}
        {
          var k :| 0 <= k < |path| - 1 && e == Overlap.PairAt(path, k);
          if k < |path| - 2 {
            assert e == Overlap.PairAt(pre, k);
          }
        }
        forall e | e in EdgesOf(pre)
          ensures e in EdgesOf(path)
        {
          var k :| 0 <= k < |pre| - 1 && e == Overlap.PairAt(pre, k);
          assert e == Overlap.PairAt(path, k);
        }
        assert last == Overlap.PairAt(path, |path| - 2);
      }
      EdgesCard(pre);
      assert |EdgesOf(pre) + {last}| <= |EdgesOf(pre)| + |{last}|;
    }
  }

  // ----- compute_penalty -----

  /** Path `j` overlaps path `i` when they share more than `threshold`
      percent of the hops of path `i`; a path without hops overlaps
      nothing. */
  predicate Overlaps(ei: set<(int, int)>, ej: set<(int, int)>, threshold: real)
  {
    |ei| > 0 && (|ei * ej| as real / |ei| as real) * 100.0 > threshold
  }

  /** How many of the first `n` paths overlap path `i` (itself included). */
  function OverlapCount(E: seq<set<(int, int)>>, i: int, n: nat, threshold: real): (c: nat)
    requires 0 <= i < |E| && n <= |E|
    ensures c <= n
  {
    if n == 0 then 0
    else OverlapCount(E, i, n - 1, threshold) + if Overlaps(E[i], E[n - 1], threshold) then 1 else 0
  }

  /** The hop sets of the paths. */
  function EdgeSets(paths: seq<PathLen>): (E: seq<set<(int, int)>>)
    ensures |E| == |paths| && forall i :: 0 <= i < |paths| ==> E[i] == EdgesOf(paths[i].path)
  {
    seq(|paths|, i requires 0 <= i < |paths| => EdgesOf(paths[i].path))
  }

  /** One path's share of the penalty: its overlap count times its
      relative detour plus 0.1. */
  function Share(count: nat, length: real, sd: real): real
    requires sd != 0.0
  {
    (count as real) * ((length - sd) / sd + 0.1)
  }

  /** A path no shorter than a positive shortest distance adds nothing
      negative. */
  lemma ShareNonNegative(count: nat, length: real, sd: real)
    requires sd > 0.0 && length >= sd
    ensures Share(count, length, sd) >= 0.0
  {
    var d := (length - sd) / sd;
    DivNonNegative(length - sd, sd);
    MulMono(0.0, d + 0.1, count as real);
  }

  lemma DivNonNegative(x: real, y: real)
    requires x >= 0.0 && y > 0.0
    ensures x / y >= 0.0
  {
  }

  /** The shares of the first `n` paths, summed. */
  function Penalty(E: seq<set<(int, int)>>, paths: seq<PathLen>, sd: real, threshold: real, n: nat): real
    requires |E| == |paths| && n <= |paths| && (n == 0 || sd != 0.0)
  {
    if n == 0 then 0.0
    else Penalty(E, paths, sd, threshold, n - 1) + Share(OverlapCount(E, n - 1, |E|, threshold), paths[n - 1].length, sd)
  }

  /** `compute_penalty`: the penalty of the whole list, or `None` where the
      division by the shortest distance raises (a zero shortest distance
      and at least one path). */
  method ComputePenalty(paths: seq<PathLen>, sd: real, threshold: real) returns (r: Option<real>)
    ensures r.None? <==> |paths| > 0 && sd == 0.0
    ensures r.Some? ==> r.value == Penalty(EdgeSets(paths), paths, sd, threshold, |paths|)
  {
    var k := |paths|;
    var edgeSets := seq(k, i requires 0 <= i < k => EdgesOf(paths[i].path));
    assert edgeSets == EdgeSets(paths);
    var counts := CountAll(edgeSets, threshold);
    if k > 0 && sd == 0.0 {
      return None;
    }
    var total := 0.0;
    var i := 0;
    while i < k
      invariant 0 <= i <= k
      invariant total == Penalty(edgeSets, paths, sd, threshold, i)
    {
      total := total + Share(counts[i], paths[i].length, sd);
      i := i + 1;
    }
    return Some(total);
  }

  /** The outer loop filling `overlap_counts`. */
  method CountAll(E: seq<set<(int, int)>>, threshold: real) returns (counts: seq<nat>)
    ensures |counts| == |E| && forall m :: 0 <= m < |E| ==> counts[m] == OverlapCount(E, m, |E|, threshold)
  {
    counts := [];
    var i := 0;
    while i < |E|
      invariant 0 <= i <= |E| && |counts| == i
      invariant forall m :: 0 <= m < i ==> counts[m] == OverlapCount(E, m, |E|, threshold)
    {
      var c := CountOverlaps(E, i, threshold);
      counts := counts + [c];
      i := i + 1;
    }
  }

  /** The inner loop over `j` for one path `i`. */
  method CountOverlaps(E: seq<set<(int, int)>>, i: int, threshold: real) returns (c: nat)
    requires 0 <= i < |E|
    ensures c == OverlapCount(E, i, |E|, threshold)
  {
    c := 0;
    var j := 0;
    while j < |E|
      invariant 0 <= j <= |E| && c == OverlapCount(E, i, j, threshold)
    {
      if |E[i]| != 0 {
        var common := |E[i] * E[j]|;
        var perc := (common as real / |E[i]| as real) * 100.0;
        if perc > threshold {
          c := c + 1;
        }
      }
      j := j + 1;
    }
  }

  /** Every path with a hop overlaps itself completely, so under a
      threshold below 100 it counts itself. */
  lemma {:induction false} SelfCounted(E: seq<set<(int, int)>>, i: int, n: nat, threshold: real)
    requires 0 <= i < n <= |E| && |E[i]| > 0 && threshold < 100.0
    ensures OverlapCount(E, i, n, threshold) >= 1
  {
    if n - 1 == i {
      assert E[i] * E[i] == E[i];
      assert Overlaps(E[i], E[i], threshold);
    } else {
      SelfCounted(E, i, n - 1, threshold);
    }
  }

  /** A path without hops is never counted as overlapping. */
  lemma {:induction false} NoHopsNoCount(E: seq<set<(int, int)>>, i: int, n: nat, threshold: real)
    requires 0 <= i < |E| && n <= |E| && |E[i]| == 0
    ensures OverlapCount(E, i, n, threshold) == 0
  {
    if n > 0 {
      NoHopsNoCount(E, i, n - 1, threshold);
    }
  }

  /** With a positive shortest distance and no path shorter than it, the
      penalty is not negative. */
  lemma {:induction false} PenaltyNonNegative(E: seq<set<(int, int)>>, paths: seq<PathLen>, sd: real, threshold: real,
                                              n: nat)
    requires |E| == |paths| && n <= |paths| && sd > 0.0
    requires forall i :: 0 <= i < |paths| ==> paths[i].length >= sd
    ensures Penalty(E, paths, sd, threshold, n) >= 0.0
  {
    if n > 0 {
      PenaltyNonNegative(E, paths, sd, threshold, n - 1);
      ShareNonNegative(OverlapCount(E, n - 1, |E|, threshold), paths[n - 1].length, sd);
    }
  }

  /** The overlap is measured against the hops of path `i` alone, so it is
      not symmetric: under a 60 % threshold `[0, 1]` overlaps `[0, 1, 2]`
      (all of its one hop is shared) but not the other way round (half of
      two hops). */
  lemma OverlapAsymmetric()
    ensures Overlaps(EdgesOf([0, 1]), EdgesOf([0, 1, 2]), 60.0)
    ensures !Overlaps(EdgesOf([0, 1, 2]), EdgesOf([0, 1]), 60.0)
  {
    var p, q := [0, 1], [0, 1, 2];
    assert EdgesOf(p) == {(0, 1)} by {
      assert Overlap.PairAt(p, 0) == (0, 1);
    }
    assert EdgesOf(q) == {(0, 1), (1, 2)} by {
      assert Overlap.PairAt(q, 0) == (0, 1) && Overlap.PairAt(q, 1) == (1, 2);
      forall e | e in EdgesOf(q)
        ensures e == (0, 1) || e == (1, 2)
      {
        var k :| 0 <= k < 2 && e == Overlap.PairAt(q, k);
      }
    }
    assert {(0, 1)} * {(0, 1), (1, 2)} == {(0, 1)};
    assert {(0, 1), (1, 2)} * {(0, 1)} == {(0, 1)};
    assert |{(0, 1), (1, 2)}| == 2;
  }
}
