// Walks over an adjacency view of a road network. Every shortest-path
// search of the programs relaxes, out of a node `u`, the entries of an
// adjacency list in order; the view keeps those lists with the positions
// intact and records, per entry, where it leads, what crossing it costs and
// whether the search may use it (forbidden road types, forbidden nodes and
// disabled edges make an entry unusable).
module Walks {
  import opened Common
  import opened CppCost
  import opened GraderEdge

  /** The cost of crossing an entry when it is entered at time (or distance)
      `t`: a fixed weight, the Phase-1 time-of-day time with `t` in seconds
      (the profile is read in minutes, `t / 60`), or the autograder's
      `get_cross_time` with `t` in seconds. */
  datatype Cost = Fixed(w: real) | CppTimed(e: Edge) | PyTimed(pe: PyEdge)

  datatype Arc = Arc(to: int, cost: Cost, ok: bool)

  /** Leaving node `from` by entry `idx` of its adjacency list. */
  datatype Hop = Hop(from: int, idx: int)

  /** What a cost needs to be defined and non-negative. */
  predicate CostPre(c: Cost)
  {
    match c
    case Fixed(w) => w >= 0.0
    case CppTimed(e) => ProfileOk(e) && e.averageTime >= 0.0
    case PyTimed(pe) => CrossOk(pe) && pe.averageTime >= 0.0
  }

  function CostAt(c: Cost, t: real): (r: real)
    requires CostPre(c) && t >= 0.0
    ensures r >= 0.0
    ensures c.Fixed? ==> r == c.w
  {
    match c
    case Fixed(w) => w
    case CppTimed(e) =>
      TimeWithProfileSpec(e, t / 60.0);
      TimeWithProfile(e, t / 60.0)
    case PyTimed(pe) =>
      CrossTimeSpec(pe, t);
      CrossTime(pe, t)
  }

  predicate ArcsPre(arcs: map<int, seq<Arc>>)
  {
    forall u, i :: u in arcs && 0 <= i < |arcs[u]| ==> CostPre(arcs[u][i].cost)
  }

  /** Entering a crossing later never lets one leave it earlier. */
  ghost predicate FifoCost(c: Cost)
  {
    CostPre(c) && forall t1, t2 :: 0.0 <= t1 <= t2 ==> t1 + CostAt(c, t1) <= t2 + CostAt(c, t2)
  }

  ghost predicate ArcsFifo(arcs: map<int, seq<Arc>>)
  {
    forall u, i :: u in arcs && 0 <= i < |arcs[u]| ==> FifoCost(arcs[u][i].cost)
  }

  /** A view whose entries all carry fixed non-negative weights. */
  predicate AllFixed(arcs: map<int, seq<Arc>>)
  {
    forall u, i :: u in arcs && 0 <= i < |arcs[u]| ==> arcs[u][i].cost.Fixed? && arcs[u][i].cost.w >= 0.0
  }

  lemma FixedIsFifo(arcs: map<int, seq<Arc>>)
    requires AllFixed(arcs)
    ensures ArcsPre(arcs) && ArcsFifo(arcs)
  {
    forall u, i | u in arcs && 0 <= i < |arcs[u]|
      ensures FifoCost(arcs[u][i].cost)
    {
      var c := arcs[u][i].cost;
      forall t1, t2 | 0.0 <= t1 <= t2
        ensures t1 + CostAt(c, t1) <= t2 + CostAt(c, t2)
      {
      }
    }
  }

  predicate HopOk(arcs: map<int, seq<Arc>>, h: Hop)
  {
    h.from in arcs && 0 <= h.idx < |arcs[h.from]| && arcs[h.from][h.idx].ok
  }

  /** The node a walk from `s` reaches. */
  function End(arcs: map<int, seq<Arc>>, s: int, w: seq<Hop>): int
  {
    if |w| == 0 then s
    else
      var h := w[|w| - 1];
      if HopOk(arcs, h) then arcs[h.from][h.idx].to else h.from
  }

  /** Each hop is a usable entry leaving the node the previous hops reached. */
  predicate IsWalk(arcs: map<int, seq<Arc>>, s: int, w: seq<Hop>)
    decreases |w|
  {
    |w| == 0
    || (IsWalk(arcs, s, w[..|w| - 1]) && HopOk(arcs, w[|w| - 1])
        && w[|w| - 1].from == End(arcs, s, w[..|w| - 1]))
  }

  /** The node sequence of a walk, starting with `s`. */
  function Nodes(arcs: map<int, seq<Arc>>, s: int, w: seq<Hop>): (r: seq<int>)
    ensures |r| == |w| + 1 && r[0] == s && r[|w|] == End(arcs, s, w)
    decreases |w|
  {
    if |w| == 0 then [s] else Nodes(arcs, s, w[..|w| - 1]) + [End(arcs, s, w)]
  }

  /** Every node of the walk lies in `K`. */
  predicate Within(arcs: map<int, seq<Arc>>, s: int, w: seq<Hop>, K: set<int>)
  {
    forall i :: 0 <= i < |Nodes(arcs, s, w)| ==> Nodes(arcs, s, w)[i] in K
  }

  /** The arrival time (or distance) at the end of a walk entered at `t0`. */
  function Arrive(arcs: map<int, seq<Arc>>, s: int, w: seq<Hop>, t0: real): (t: real)
    requires ArcsPre(arcs) && IsWalk(arcs, s, w) && t0 >= 0.0
    ensures t >= t0
    decreases |w|
  {
    if |w| == 0 then t0
    else
      var t := Arrive(arcs, s, w[..|w| - 1], t0);
      var h := w[|w| - 1];
      t + CostAt(arcs[h.from][h.idx].cost, t)
  }

  /** The shorter walk stays within the nodes the longer one visits. */
  lemma WithinPrefix(arcs: map<int, seq<Arc>>, s: int, w: seq<Hop>, K: set<int>)
    requires |w| > 0 && Within(arcs, s, w, K)
    ensures Within(arcs, s, w[..|w| - 1], K)
    ensures End(arcs, s, w) in K
  {
    var p := Nodes(arcs, s, w[..|w| - 1]);
    assert Nodes(arcs, s, w) == p + [End(arcs, s, w)];
    forall i | 0 <= i < |p|
      ensures p[i] in K
    {
      assert p[i] == Nodes(arcs, s, w)[i];
    }
    assert End(arcs, s, w) == Nodes(arcs, s, w)[|w|];
  }

  /** Extending a walk by one usable hop out of its end. */
  lemma WalkExtend(arcs: map<int, seq<Arc>>, s: int, w: seq<Hop>, h: Hop, K: set<int>)
    requires IsWalk(arcs, s, w) && Within(arcs, s, w, K)
    requires HopOk(arcs, h) && h.from == End(arcs, s, w) && arcs[h.from][h.idx].to in K
    ensures IsWalk(arcs, s, w + [h]) && Within(arcs, s, w + [h], K)
    ensures End(arcs, s, w + [h]) == arcs[h.from][h.idx].to
    ensures Nodes(arcs, s, w + [h]) == Nodes(arcs, s, w) + [arcs[h.from][h.idx].to]
  {
    assert (w + [h])[..|w + [h]| - 1] == w;
    var n := Nodes(arcs, s, w + [h]);
    assert n == Nodes(arcs, s, w) + [arcs[h.from][h.idx].to];
    forall i | 0 <= i < |n|
      ensures n[i] in K
    {
      if i < |w| + 1 {
        assert n[i] == Nodes(arcs, s, w)[i];
      }
    }
  }

  lemma ArriveExtend(arcs: map<int, seq<Arc>>, s: int, w: seq<Hop>, h: Hop, t0: real)
    requires ArcsPre(arcs) && IsWalk(arcs, s, w) && t0 >= 0.0
    requires HopOk(arcs, h) && h.from == End(arcs, s, w)
    ensures IsWalk(arcs, s, w + [h])
    ensures Arrive(arcs, s, w + [h], t0)
            == Arrive(arcs, s, w, t0) + CostAt(arcs[h.from][h.idx].cost, Arrive(arcs, s, w, t0))
  {
    assert (w + [h])[..|w + [h]| - 1] == w;
  }

  /** Hop `k` of a walk leaves its `k`-th node by a usable entry that leads
      to its `k+1`-th node. */
  lemma {:induction false} WalkHop(arcs: map<int, seq<Arc>>, s: int, w: seq<Hop>, k: int)
    requires IsWalk(arcs, s, w) && 0 <= k < |w|
    ensures HopOk(arcs, w[k]) && w[k].from == Nodes(arcs, s, w)[k]
    ensures arcs[w[k].from][w[k].idx].to == Nodes(arcs, s, w)[k + 1]
    decreases |w|
  {
    var p := w[..|w| - 1];
    assert Nodes(arcs, s, w) == Nodes(arcs, s, p) + [End(arcs, s, w)];
    if k < |w| - 1 {
      WalkHop(arcs, s, p, k);
      assert w[k] == p[k];
    }
  }

  /** A route from `s` to `t` through nodes of `K`. */
  ghost predicate Route(arcs: map<int, seq<Arc>>, K: set<int>, s: int, t: int, w: seq<Hop>)
  {
    IsWalk(arcs, s, w) && Within(arcs, s, w, K) && End(arcs, s, w) == t
  }

  ghost predicate NoRoute(arcs: map<int, seq<Arc>>, K: set<int>, s: int, t: int)
  {
    forall w :: !Route(arcs, K, s, t, w)
  }

  /** No route from `s` to `t` through `K` arrives before `c`. */
  ghost predicate Shortest(arcs: map<int, seq<Arc>>, K: set<int>, s: int, t: int, c: real)
    requires ArcsPre(arcs)
  {
    forall w :: Route(arcs, K, s, t, w) ==> c <= Arrive(arcs, s, w, 0.0)
  }
}
