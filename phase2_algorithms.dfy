// The Phase-2 shortest path: Dijkstra on edge lengths alone, with no
// forbidden nodes or road types and no early answer for `source ==
// target` (the first pop is the target and ends the search).
module Phase2Algorithms {
  import opened Common
  import opened Walks
  import opened Engine
  import opened Phase1Algorithms

  /** The network the Phase-2 search walks: every entry allowed, each
      crossing costing its length. */
  function LengthView(adj: map<int, seq<Edge>>): (arcs: map<int, seq<Arc>>)
    ensures arcs == View(adj, false, {}, {})
  {
    View(adj, false, {}, {})
  }

  /** Under non-negative lengths the network is fit for the search. */
  lemma LengthViewFifo(adj: map<int, seq<Edge>>)
    requires CostsOk(adj, false)
    ensures ArcsPre(LengthView(adj)) && ArcsFifo(LengthView(adj))
  {
    DistanceFifo(adj, {}, {});
  }

  /** `dijkstra(g, source, target)` over the graph's `nodes` and `adj`. */
  method Dijkstra(nodes: map<int, Node>, adj: map<int, seq<Edge>>, source: int, target: int)
    returns (res: SPResult, ghost w: seq<Hop>)
    requires CostsOk(adj, false)
    ensures source !in nodes || target !in nodes ==> res == Impossible
    ensures source in nodes && source == target ==> res == SPResult(true, 0.0, [source])
    ensures !res.possible ==> res == Impossible
    ensures res.possible ==> Distinct(res.path)
    ensures res.possible ==>
              Route(LengthView(adj), nodes.Keys, source, target, w) && Nodes(LengthView(adj), source, w) == res.path
              && Arrive(LengthView(adj), source, w, 0.0) == res.cost
              && Shortest(LengthView(adj), nodes.Keys, source, target, res.cost)
    ensures !res.possible && source in nodes && target in nodes ==> NoRoute(LengthView(adj), nodes.Keys, source, target)
  {
    w := [];
    if source !in nodes || target !in nodes {
      return Impossible, w;
    }
    var arcs: map<int, seq<Arc>> := LengthView(adj);
    LengthViewFifo(adj);
    var dist: map<int, Ext>, parent: map<int, int>;
    ghost var via: map<int, int>, rank: map<int, nat>;
    dist, parent, via, rank := Search(arcs, nodes.Keys, source, Some(target), Inf, false);
    if dist[target] == Inf {
      NoRouteAtInf(arcs, nodes.Keys, source, target, dist);
      return Impossible, w;
    }
    var path := TracePath(arcs, nodes.Keys, source, Inf, dist, parent, via, rank, target);
    w := TreeWalk(arcs, nodes.Keys, source, Inf, dist, parent, via, rank, target);
    res := SPResult(true, dist[target].val, path);
    ShortestAtFin(arcs, nodes.Keys, source, target, dist);
    TreePathSimple(arcs, nodes.Keys, source, Inf, dist, parent, via, rank, target);
    if source == target {
      TreePathStep(arcs, nodes.Keys, source, Inf, dist, parent, via, rank, target);
    }
  }

  /** Hop `k` of a walk in the length network is an adjacency entry from
      the walk's `k`-th node to its next one. */
  lemma RouteEntries(adj: map<int, seq<Edge>>, s: int, w: seq<Hop>, k: int)
    requires IsWalk(LengthView(adj), s, w) && 0 <= k < |w|
    ensures var n := Nodes(LengthView(adj), s, w);
            w[k].from == n[k] && w[k].from in adj && 0 <= w[k].idx < |adj[w[k].from]|
            && adj[w[k].from][w[k].idx].v == n[k + 1]
  {
    ViewWalkAllowed(adj, false, {}, {}, s, w);
  }

  /** Some entry of `adj[u]` leads to `v`. */
  predicate HasEntry(adj: map<int, seq<Edge>>, u: int, v: int)
  {
    exists a :: a in AdjAt(adj, u) && a.v == v
  }

  /** Consecutive nodes of `p` are joined by an adjacency entry. */
  predicate Linked(adj: map<int, seq<Edge>>, p: seq<int>)
  {
    forall k :: 0 <= k < |p| - 1 ==> HasEntry(adj, p[k], p[k + 1])
  }

  /** A path through nodes of `K` from `s` to `t` along adjacency entries. */
  predicate PathIn(adj: map<int, seq<Edge>>, K: set<int>, s: int, t: int, p: seq<int>)
  {
    |p| >= 1 && p[0] == s && p[|p| - 1] == t && Linked(adj, p) && forall x :: x in p ==> x in K
  }

  /** The nodes of a route in the length network form such a path. */
  lemma RouteLinked(adj: map<int, seq<Edge>>, K: set<int>, s: int, t: int, w: seq<Hop>)
    requires Route(LengthView(adj), K, s, t, w)
    ensures PathIn(adj, K, s, t, Nodes(LengthView(adj), s, w))
  {
    var n := Nodes(LengthView(adj), s, w);
    forall k | 0 <= k < |n| - 1
      ensures HasEntry(adj, n[k], n[k + 1])
    {
      RouteEntries(adj, s, w, k);
      var a := adj[w[k].from][w[k].idx];
      assert AdjAt(adj, n[k]) == adj[n[k]];
      assert a in AdjAt(adj, n[k]) && a.v == n[k + 1];
    }
  }
}
