// The label-setting search that every Dijkstra of the programs runs: a
// distance map initialised to "infinity" (or to the 1e18 sentinel), a
// min-priority queue of (key, node) pairs ordered lexicographically, lazy
// deletion of stale entries (or a visited set), an optional early stop when
// the target is popped, and strict-improvement relaxation that records the
// parent of the improved node.
module Engine {
  import opened Common
  import opened Walks
  import CppCost
  import GraderEdge

  /** Lexicographic order of queue entries, as `std::pair` and Python
      tuples compare: by key, then by node id. */
  predicate EntryLe(a: (real, int), b: (real, int))
  {
    a.0 < b.0 || (a.0 == b.0 && a.1 <= b.1)
  }

  /** `pq.top()` / `heappop`: the least entry of the queue. */
  method PopMin(q: set<(real, int)>) returns (d: real, u: int)
    requires q != {}
    ensures (d, u) in q
    ensures forall e :: e in q ==> EntryLe((d, u), e)
  {
    var x := Pick(q);
    d, u := x.0, x.1;
    var rest := q - {x};
    while rest != {}
      invariant rest <= q && (d, u) in q
      invariant forall e :: e in q && e !in rest ==> EntryLe((d, u), e)
      decreases |rest|
    {
      var y := Pick(rest);
      if y.0 < d || (y.0 == d && y.1 < u) {
        d, u := y.0, y.1;
      }
      rest := rest - {y};
    }
  }

  /** The weight of an entry entered at `t`: its fixed weight, the Phase-1
      profile time (`compute_time_with_profile` when there is a profile,
      `average_time` otherwise) or the autograder's `get_cross_time`. */
  method ArcCost(c: Cost, t: real) returns (w: real)
    requires CostPre(c) && t >= 0.0
    ensures w == CostAt(c, t)
  {
    match c
    case Fixed(x) =>
      w := x;
    case CppTimed(e) =>
      if |e.speedProfile| == 0 {
        w := e.averageTime;
      } else {
        w := CppCost.ComputeTimeWithProfile(e, t / 60.0);
      }
    case PyTimed(pe) =>
      w := GraderEdge.GetCrossTime(pe, t);
  }

  /** The initial value: a finite sentinel is positive. */
  predicate CapOk(cap: Ext)
  {
    cap.Inf? || cap.val > 0.0
  }

  /** Every node of `K` has a distance no worse than the initial value, the
      source's is 0, and entries created by reading an unknown node hold 0. */
  predicate DistOk(K: set<int>, src: int, cap: Ext, dist: map<int, Ext>)
  {
    src in K && K <= dist.Keys && dist[src] == Fin(0.0)
    && (forall v :: v in K ==> Le(dist[v], cap) && (dist[v].Fin? ==> dist[v].val >= 0.0))
    && (forall v :: v in dist && v !in K ==> dist[v] == Fin(0.0))
  }

  /** Queue entries are for nodes of `K`, below the initial value, not below
      the node's distance nor the last popped key, and stale for nodes
      already settled. */
  predicate QueueOk(K: set<int>, cap: Ext, dist: map<int, Ext>, q: set<(real, int)>,
                    settled: set<int>, floor: real)
  {
    forall e :: e in q ==>
      e.1 in K && e.1 in dist && Lt(Fin(e.0), cap) && Le(dist[e.1], Fin(e.0)) && floor <= e.0
      && (e.1 in settled ==> Lt(dist[e.1], Fin(e.0)))
  }

  /** An unsettled node with a distance below the initial value is queued
      under that distance. */
  predicate PendingOk(K: set<int>, cap: Ext, dist: map<int, Ext>, q: set<(real, int)>, settled: set<int>)
  {
    forall v :: v in K && v !in settled && v in dist && Lt(dist[v], cap) ==> (dist[v].val, v) in q
  }

  /** Entry `i` out of `u` has been relaxed: unless it is unusable or leads
      outside `K`, its target's distance is no worse than arriving through
      it, whenever that arrival is below the initial value. */
  predicate Relaxed(arcs: map<int, seq<Arc>>, K: set<int>, cap: Ext, dist: map<int, Ext>, u: int, i: int)
    requires ArcsPre(arcs) && u in arcs && 0 <= i < |arcs[u]|
  {
    var a := arcs[u][i];
    u in dist && dist[u].Fin? && dist[u].val >= 0.0
    && (a.ok && a.to in K ==>
          var t := dist[u].val + CostAt(a.cost, dist[u].val);
          Lt(Fin(t), cap) ==> a.to in dist && Le(dist[a.to], Fin(t)))
  }

  predicate RelaxedBelow(arcs: map<int, seq<Arc>>, K: set<int>, cap: Ext, dist: map<int, Ext>, u: int, j: int)
    requires ArcsPre(arcs)
  {
    u in arcs ==> forall i :: 0 <= i < j && i < |arcs[u]| ==> Relaxed(arcs, K, cap, dist, u, i)
  }

  predicate AllRelaxed(arcs: map<int, seq<Arc>>, K: set<int>, cap: Ext, dist: map<int, Ext>, u: int)
    requires ArcsPre(arcs)
  {
    u in arcs ==> forall i :: 0 <= i < |arcs[u]| ==> Relaxed(arcs, K, cap, dist, u, i)
  }

  /** Settled nodes have final distances no greater than the last popped key,
      and all their entries relaxed. */
  predicate SettledOk(arcs: map<int, seq<Arc>>, K: set<int>, cap: Ext, dist: map<int, Ext>,
                      S: set<int>, floor: real)
    requires ArcsPre(arcs)
  {
    forall u :: u in S ==>
      u in K && u in dist && dist[u].Fin? && 0.0 <= dist[u].val <= floor
      && AllRelaxed(arcs, K, cap, dist, u)
  }

  /** Unsettled nodes are no closer than the last popped key. */
  predicate Above(K: set<int>, cap: Ext, dist: map<int, Ext>, S: set<int>, floor: real)
  {
    forall v :: v in K && v !in S && v in dist && Lt(dist[v], cap) ==> floor <= dist[v].val
  }

  /** The recorded parent of `v` is settled, is the source or has a parent
      itself, and reaches `v` through entry `via[v]` with exactly `v`'s
      distance; settled nodes are ranked after their parents. */
  ghost predicate ParentOk(arcs: map<int, seq<Arc>>, K: set<int>, src: int, dist: map<int, Ext>,
                           parent: map<int, int>, via: map<int, int>, rank: map<int, nat>, v: int)
    requires ArcsPre(arcs) && v in parent
  {
    var p := parent[v];
    v in K && v != src && v in via && v in dist && p in rank && p in dist && (p == src || p in parent)
    && dist[p].Fin? && dist[p].val >= 0.0
    && HopOk(arcs, Hop(p, via[v])) && arcs[p][via[v]].to == v
    && dist[v] == Fin(dist[p].val + CostAt(arcs[p][via[v]].cost, dist[p].val))
    && (v in rank ==> rank[p] < rank[v])
  }

  ghost predicate TreeOk(arcs: map<int, seq<Arc>>, K: set<int>, src: int, cap: Ext, dist: map<int, Ext>,
                         parent: map<int, int>, via: map<int, int>, rank: map<int, nat>)
    requires ArcsPre(arcs)
  {
    (forall v :: v in parent ==> ParentOk(arcs, K, src, dist, parent, via, rank, v))
    && (forall v :: v in K && v != src && v in dist && Lt(dist[v], cap) ==> v in parent)
    && (forall v :: v in rank ==> rank[v] < |rank|)
  }

  /** The loop invariant between two pops. */
  ghost predicate Inv(arcs: map<int, seq<Arc>>, K: set<int>, src: int, cap: Ext, dist: map<int, Ext>,
                      parent: map<int, int>, via: map<int, int>, q: set<(real, int)>,
                      settled: set<int>, floor: real, rank: map<int, nat>)
  {
    ArcsPre(arcs) && CapOk(cap) && DistOk(K, src, cap, dist) && 0.0 <= floor && Lt(Fin(floor), cap)
    && QueueOk(K, cap, dist, q, settled, floor) && PendingOk(K, cap, dist, q, settled)
    && SettledOk(arcs, K, cap, dist, settled, floor) && rank.Keys == settled
    && TreeOk(arcs, K, src, cap, dist, parent, via, rank)
  }

  /** The invariant while the entries of the just settled `u` are relaxed,
      the first `j` of them done. */
  ghost predicate InvMid(arcs: map<int, seq<Arc>>, K: set<int>, src: int, cap: Ext, dist: map<int, Ext>,
                         parent: map<int, int>, via: map<int, int>, q: set<(real, int)>,
                         settled: set<int>, floor: real, rank: map<int, nat>, u: int, j: int)
  {
    ArcsPre(arcs) && CapOk(cap) && DistOk(K, src, cap, dist) && 0.0 <= floor && Lt(Fin(floor), cap)
    && QueueOk(K, cap, dist, q, settled, floor) && PendingOk(K, cap, dist, q, settled)
    && SettledOk(arcs, K, cap, dist, settled - {u}, floor) && rank.Keys == settled
    && TreeOk(arcs, K, src, cap, dist, parent, via, rank)
    && u in settled && u in dist && dist[u] == Fin(floor) && (u == src || u in parent)
    && RelaxedBelow(arcs, K, cap, dist, u, j)
  }

  /** A shortest-path guarantee for `v`: when crossing times are FIFO, no
      walk through nodes of `K` reaches `v` earlier than its distance. */
  ghost predicate Optimal(arcs: map<int, seq<Arc>>, K: set<int>, src: int, dist: map<int, Ext>, v: int)
    requires ArcsPre(arcs) && v in dist
  {
    ArcsFifo(arcs) ==>
      forall w :: IsWalk(arcs, src, w) && Within(arcs, src, w, K) && End(arcs, src, w) == v
        ==> Le(dist[v], Fin(Arrive(arcs, src, w, 0.0)))
  }

  /** No entry between nodes of `K` can still improve a distance. */
  predicate Closed(arcs: map<int, seq<Arc>>, K: set<int>, cap: Ext, dist: map<int, Ext>)
    requires ArcsPre(arcs) && K <= dist.Keys
  {
    forall u, i :: u in K && u in arcs && 0 <= i < |arcs[u]| && Lt(dist[u], cap)
      ==> Relaxed(arcs, K, cap, dist, u, i)
  }

  /** Completeness with an infinite initial value: every node a walk through
      `K` reaches has a finite distance. */
  ghost predicate Reached(arcs: map<int, seq<Arc>>, K: set<int>, src: int, dist: map<int, Ext>, v: int)
    requires v in dist
  {
    forall w :: IsWalk(arcs, src, w) && Within(arcs, src, w, K) && End(arcs, src, w) == v ==> dist[v].Fin?
  }

  /** `dist[v]` is the earliest arrival over all routes to `v` through `K`,
      attained by one of them; it is infinite exactly when there is none. */
  ghost predicate ExactDist(arcs: map<int, seq<Arc>>, K: set<int>, src: int, dist: map<int, Ext>, v: int)
    requires ArcsPre(arcs) && v in dist
  {
    (forall w :: Route(arcs, K, src, v, w) ==> Le(dist[v], Fin(Arrive(arcs, src, w, 0.0))))
    && (dist[v].Fin? ==> exists w :: Route(arcs, K, src, v, w) && Arrive(arcs, src, w, 0.0) == dist[v].val)
  }

  lemma {:induction false} ReachFin(arcs: map<int, seq<Arc>>, K: set<int>, src: int, dist: map<int, Ext>, w: seq<Hop>)
    requires ArcsPre(arcs) && DistOk(K, src, Inf, dist) && Closed(arcs, K, Inf, dist)
    requires IsWalk(arcs, src, w) && Within(arcs, src, w, K)
    ensures End(arcs, src, w) in dist && dist[End(arcs, src, w)].Fin?
    decreases |w|
  {
    if |w| > 0 {
      var w' := w[..|w| - 1];
      var h := w[|w| - 1];
      WithinPrefix(arcs, src, w, K);
      ReachFin(arcs, K, src, dist, w');
      assert h.from == Nodes(arcs, src, w')[|w'|];
      assert Relaxed(arcs, K, Inf, dist, h.from, h.idx);
    }
  }

  lemma StopReached(arcs: map<int, seq<Arc>>, K: set<int>, src: int, dist: map<int, Ext>, u: int)
    requires u in dist && dist[u].Fin?
    ensures Reached(arcs, K, src, dist, u)
  {
  }

  lemma DrainReached(arcs: map<int, seq<Arc>>, K: set<int>, src: int, dist: map<int, Ext>)
    requires ArcsPre(arcs) && DistOk(K, src, Inf, dist) && Closed(arcs, K, Inf, dist)
    ensures forall v :: v in K ==> Reached(arcs, K, src, dist, v)
  {
    forall v, w | v in K && IsWalk(arcs, src, w) && Within(arcs, src, w, K) && End(arcs, src, w) == v
      ensures dist[v].Fin?
    {
      ReachFin(arcs, K, src, dist, w);
    }
  }

  function InitDist(K: set<int>, src: int, cap: Ext): (dist: map<int, Ext>)
  {
    (map v | v in K :: cap)[src := Fin(0.0)]
  }

  lemma InitInv(arcs: map<int, seq<Arc>>, K: set<int>, src: int, cap: Ext)
    requires ArcsPre(arcs) && src in K && CapOk(cap)
    ensures Inv(arcs, K, src, cap, InitDist(K, src, cap), map[], map[], {(0.0, src)}, {}, 0.0, map[])
  {
    var dist := InitDist(K, src, cap);
    assert forall v :: v in K && v != src ==> dist[v] == cap;
  }

  /** What a pop tells: a settled node's entry is stale, an unsettled node's
      entry carries its distance. */
  lemma PopFacts(arcs: map<int, seq<Arc>>, K: set<int>, src: int, cap: Ext, dist: map<int, Ext>,
                 parent: map<int, int>, via: map<int, int>, q: set<(real, int)>,
                 settled: set<int>, floor: real, rank: map<int, nat>, d: real, u: int)
    requires Inv(arcs, K, src, cap, dist, parent, via, q, settled, floor, rank)
    requires (d, u) in q && forall e :: e in q ==> EntryLe((d, u), e)
    ensures u in K && u in dist && dist[u].Fin? && dist[u].val <= d
    ensures u in settled <==> Lt(dist[u], Fin(d))
    ensures u !in settled ==> dist[u] == Fin(d)
  {
  }

  lemma PopStale(arcs: map<int, seq<Arc>>, K: set<int>, src: int, cap: Ext, dist: map<int, Ext>,
                 parent: map<int, int>, via: map<int, int>, q: set<(real, int)>,
                 settled: set<int>, floor: real, rank: map<int, nat>, d: real, u: int)
    requires Inv(arcs, K, src, cap, dist, parent, via, q, settled, floor, rank)
    requires (d, u) in q && u in dist && Lt(dist[u], Fin(d))
    ensures Inv(arcs, K, src, cap, dist, parent, via, q - {(d, u)}, settled, floor, rank)
  {
  }

  /** At a pop of an unsettled node the popped key bounds the settled
      distances from above and the unsettled ones from below. */
  lemma PopBounds(arcs: map<int, seq<Arc>>, K: set<int>, src: int, cap: Ext, dist: map<int, Ext>,
                  parent: map<int, int>, via: map<int, int>, q: set<(real, int)>,
                  settled: set<int>, floor: real, rank: map<int, nat>, d: real, u: int)
    requires Inv(arcs, K, src, cap, dist, parent, via, q, settled, floor, rank)
    requires (d, u) in q && forall e :: e in q ==> EntryLe((d, u), e)
    ensures floor <= d && 0.0 <= d && Lt(Fin(d), cap)
    ensures SettledOk(arcs, K, cap, dist, settled, d)
    ensures Above(K, cap, dist, settled, d)
  {
    forall v | v in K && v !in settled && v in dist && Lt(dist[v], cap)
      ensures d <= dist[v].val
    {
      assert (dist[v].val, v) in q;
    }
  }

  lemma Settle(arcs: map<int, seq<Arc>>, K: set<int>, src: int, cap: Ext, dist: map<int, Ext>,
               parent: map<int, int>, via: map<int, int>, q: set<(real, int)>,
               settled: set<int>, floor: real, rank: map<int, nat>, d: real, u: int)
    requires Inv(arcs, K, src, cap, dist, parent, via, q, settled, floor, rank)
    requires (d, u) in q && forall e :: e in q ==> EntryLe((d, u), e)
    requires u !in settled && u in dist && dist[u] == Fin(d)
    ensures InvMid(arcs, K, src, cap, dist, parent, via, q - {(d, u)}, settled + {u}, d,
                   rank[u := |settled|], u, 0)
  {
    PopBounds(arcs, K, src, cap, dist, parent, via, q, settled, floor, rank, d, u);
    var q' := q - {(d, u)};
    var settled' := settled + {u};
    var rank' := rank[u := |settled|];
    assert |rank| == |settled| by {
      assert rank.Keys == settled;
    }
    assert settled' - {u} == settled;
    SettleQueue(K, cap, dist, q, settled, floor, d, u);
    SettleTree(arcs, K, src, cap, dist, parent, via, rank, u);
    assert u == src || u in parent by {
      if u != src {
        assert Lt(dist[u], cap);
      }
    }
  }

  lemma SettleQueue(K: set<int>, cap: Ext, dist: map<int, Ext>, q: set<(real, int)>,
                    settled: set<int>, floor: real, d: real, u: int)
    requires QueueOk(K, cap, dist, q, settled, floor) && PendingOk(K, cap, dist, q, settled)
    requires (d, u) in q && forall e :: e in q ==> EntryLe((d, u), e)
    requires u in dist && dist[u] == Fin(d)
    ensures QueueOk(K, cap, dist, q - {(d, u)}, settled + {u}, d)
    ensures PendingOk(K, cap, dist, q - {(d, u)}, settled + {u})
  {
    var q' := q - {(d, u)};
    forall e | e in q'
      ensures e.1 in settled + {u} ==> Lt(dist[e.1], Fin(e.0))
    {
      if e.1 == u {
        assert EntryLe((d, u), e) && e != (d, u);
      }
    }
  }

  lemma SettleTree(arcs: map<int, seq<Arc>>, K: set<int>, src: int, cap: Ext, dist: map<int, Ext>,
                   parent: map<int, int>, via: map<int, int>, rank: map<int, nat>, u: int)
    requires ArcsPre(arcs) && TreeOk(arcs, K, src, cap, dist, parent, via, rank) && u !in rank
    ensures TreeOk(arcs, K, src, cap, dist, parent, via, rank[u := |rank|])
  {
    var rank' := rank[u := |rank|];
    forall v | v in parent
      ensures ParentOk(arcs, K, src, dist, parent, via, rank', v)
    {
      assert ParentOk(arcs, K, src, dist, parent, via, rank, v);
      if v == u {
        assert rank'[parent[v]] == rank[parent[v]] < |rank|;
      }
    }
    assert |rank'| == |rank| + 1;
  }

  /** Relaxation facts survive lowering the distances of other nodes. */
  lemma RelaxedMono(arcs: map<int, seq<Arc>>, K: set<int>, cap: Ext, dist: map<int, Ext>,
                    dist': map<int, Ext>, x: int, j: int)
    requires ArcsPre(arcs) && x in dist && x in dist' && dist'[x] == dist[x]
    requires forall v :: v in K && v in dist ==> v in dist' && Le(dist'[v], dist[v])
    requires RelaxedBelow(arcs, K, cap, dist, x, j)
    ensures RelaxedBelow(arcs, K, cap, dist', x, j)
  {
    if x in arcs {
      forall i | 0 <= i < j && i < |arcs[x]|
        ensures Relaxed(arcs, K, cap, dist', x, i)
      {
        assert Relaxed(arcs, K, cap, dist, x, i);
      }
    }
  }

  lemma AllRelaxedMono(arcs: map<int, seq<Arc>>, K: set<int>, cap: Ext, dist: map<int, Ext>,
                       dist': map<int, Ext>, S: set<int>, floor: real)
    requires ArcsPre(arcs) && SettledOk(arcs, K, cap, dist, S, floor)
    requires forall x :: x in S ==> x in dist' && dist'[x] == dist[x]
    requires forall v :: v in K && v in dist ==> v in dist' && Le(dist'[v], dist[v])
    ensures SettledOk(arcs, K, cap, dist', S, floor)
  {
    forall x | x in S
      ensures AllRelaxed(arcs, K, cap, dist', x)
    {
      assert AllRelaxed(arcs, K, cap, dist, x);
      if x in arcs {
        assert RelaxedBelow(arcs, K, cap, dist, x, |arcs[x]|);
        RelaxedMono(arcs, K, cap, dist, dist', x, |arcs[x]|);
        assert RelaxedBelow(arcs, K, cap, dist', x, |arcs[x]|);
      }
    }
  }

  /** Relaxing an unusable entry, or one that does not improve, changes
      nothing. */
  lemma RelaxKeep(arcs: map<int, seq<Arc>>, K: set<int>, src: int, cap: Ext, dist: map<int, Ext>,
                  parent: map<int, int>, via: map<int, int>, q: set<(real, int)>,
                  settled: set<int>, floor: real, rank: map<int, nat>, u: int, j: int)
    requires InvMid(arcs, K, src, cap, dist, parent, via, q, settled, floor, rank, u, j)
    requires u in arcs && 0 <= j < |arcs[u]|
    requires arcs[u][j].ok && arcs[u][j].to in K ==>
               !Lt(Fin(dist[u].val + CostAt(arcs[u][j].cost, dist[u].val)), dist[arcs[u][j].to])
    ensures InvMid(arcs, K, src, cap, dist, parent, via, q, settled, floor, rank, u, j + 1)
  {
    assert Relaxed(arcs, K, cap, dist, u, j);
  }

  /** Reading an unknown target through `operator[]` creates it at 0. */
  lemma RelaxJunk(arcs: map<int, seq<Arc>>, K: set<int>, src: int, cap: Ext, dist: map<int, Ext>,
                  parent: map<int, int>, via: map<int, int>, q: set<(real, int)>,
                  settled: set<int>, floor: real, rank: map<int, nat>, u: int, j: int, v: int)
    requires InvMid(arcs, K, src, cap, dist, parent, via, q, settled, floor, rank, u, j)
    requires v !in dist
    ensures v !in K
    ensures InvMid(arcs, K, src, cap, dist[v := Fin(0.0)], parent, via, q, settled, floor, rank, u, j)
  {
    var dist' := dist[v := Fin(0.0)];
    JunkDist(K, src, cap, dist, v);
    JunkQueue(K, cap, dist, q, settled, floor, v);
    JunkTree(arcs, K, src, cap, dist, parent, via, rank, v);
    AllRelaxedMono(arcs, K, cap, dist, dist', settled - {u}, floor);
    RelaxedMono(arcs, K, cap, dist, dist', u, j);
  }

  lemma JunkDist(K: set<int>, src: int, cap: Ext, dist: map<int, Ext>, v: int)
    requires DistOk(K, src, cap, dist) && v !in dist
    ensures v !in K && DistOk(K, src, cap, dist[v := Fin(0.0)])
  {
  }

  lemma JunkQueue(K: set<int>, cap: Ext, dist: map<int, Ext>, q: set<(real, int)>,
                  settled: set<int>, floor: real, v: int)
    requires QueueOk(K, cap, dist, q, settled, floor) && PendingOk(K, cap, dist, q, settled)
    requires v !in dist && K <= dist.Keys
    ensures QueueOk(K, cap, dist[v := Fin(0.0)], q, settled, floor)
    ensures PendingOk(K, cap, dist[v := Fin(0.0)], q, settled)
  {
  }

  lemma JunkTree(arcs: map<int, seq<Arc>>, K: set<int>, src: int, cap: Ext, dist: map<int, Ext>,
                 parent: map<int, int>, via: map<int, int>, rank: map<int, nat>, v: int)
    requires ArcsPre(arcs) && TreeOk(arcs, K, src, cap, dist, parent, via, rank)
    requires v !in dist && K <= dist.Keys
    ensures TreeOk(arcs, K, src, cap, dist[v := Fin(0.0)], parent, via, rank)
  {
    var dist' := dist[v := Fin(0.0)];
    forall x | x in parent
      ensures ParentOk(arcs, K, src, dist', parent, via, rank, x)
    {
      assert ParentOk(arcs, K, src, dist, parent, via, rank, x);
    }
  }

  /** A strict improvement through entry `j` of `u`. */
  lemma RelaxImprove(arcs: map<int, seq<Arc>>, K: set<int>, src: int, cap: Ext, dist: map<int, Ext>,
                     parent: map<int, int>, via: map<int, int>, q: set<(real, int)>,
                     settled: set<int>, floor: real, rank: map<int, nat>, u: int, j: int, nd: real)
    requires InvMid(arcs, K, src, cap, dist, parent, via, q, settled, floor, rank, u, j)
    requires u in arcs && 0 <= j < |arcs[u]| && arcs[u][j].ok && arcs[u][j].to in dist
    requires nd == dist[u].val + CostAt(arcs[u][j].cost, dist[u].val)
    requires Lt(Fin(nd), dist[arcs[u][j].to])
    ensures var v := arcs[u][j].to;
            v in K && v !in settled && (nd, v) !in q
            && InvMid(arcs, K, src, cap, dist[v := Fin(nd)], parent[v := u], via[v := j], q + {(nd, v)},
                      settled, floor, rank, u, j + 1)
  {
    var v := arcs[u][j].to;
    assert v in K;
    assert v !in settled;
    var dist' := dist[v := Fin(nd)];
    ImproveDist(K, src, cap, dist, v, nd);
    ImproveQueue(K, cap, dist, q, settled, floor, v, nd);
    ImproveTree(arcs, K, src, cap, dist, parent, via, rank, u, j, nd);
    AllRelaxedMono(arcs, K, cap, dist, dist', settled - {u}, floor);
    RelaxedMono(arcs, K, cap, dist, dist', u, j);
    assert Relaxed(arcs, K, cap, dist', u, j);
    assert RelaxedBelow(arcs, K, cap, dist', u, j + 1);
  }

  lemma ImproveDist(K: set<int>, src: int, cap: Ext, dist: map<int, Ext>, v: int, nd: real)
    requires DistOk(K, src, cap, dist) && v in K && v != src && 0.0 <= nd && Lt(Fin(nd), dist[v])
    ensures DistOk(K, src, cap, dist[v := Fin(nd)])
  {
  }

  lemma ImproveQueue(K: set<int>, cap: Ext, dist: map<int, Ext>, q: set<(real, int)>,
                     settled: set<int>, floor: real, v: int, nd: real)
    requires QueueOk(K, cap, dist, q, settled, floor) && PendingOk(K, cap, dist, q, settled)
    requires v in K && v !in settled && v in dist && Le(dist[v], cap) && Lt(Fin(nd), dist[v]) && floor <= nd
    ensures (nd, v) !in q
    ensures QueueOk(K, cap, dist[v := Fin(nd)], q + {(nd, v)}, settled, floor)
    ensures PendingOk(K, cap, dist[v := Fin(nd)], q + {(nd, v)}, settled)
  {
  }

  lemma ImproveTree(arcs: map<int, seq<Arc>>, K: set<int>, src: int, cap: Ext, dist: map<int, Ext>,
                    parent: map<int, int>, via: map<int, int>, rank: map<int, nat>, u: int, j: int, nd: real)
    requires ArcsPre(arcs) && TreeOk(arcs, K, src, cap, dist, parent, via, rank)
    requires u in rank && u in dist && dist[u].Fin? && dist[u].val >= 0.0 && (u == src || u in parent)
    requires u in arcs && 0 <= j < |arcs[u]| && arcs[u][j].ok
    requires arcs[u][j].to in K && arcs[u][j].to != src && arcs[u][j].to !in rank
    requires nd == dist[u].val + CostAt(arcs[u][j].cost, dist[u].val)
    ensures TreeOk(arcs, K, src, cap, dist[arcs[u][j].to := Fin(nd)], parent[arcs[u][j].to := u],
                   via[arcs[u][j].to := j], rank)
  {
    var v := arcs[u][j].to;
    var dist' := dist[v := Fin(nd)];
    var parent' := parent[v := u];
    var via' := via[v := j];
    forall x | x in parent'
      ensures ParentOk(arcs, K, src, dist', parent', via', rank, x)
    {
      if x != v {
        assert ParentOk(arcs, K, src, dist, parent, via, rank, x);
      }
    }
  }

  lemma SettleDone(arcs: map<int, seq<Arc>>, K: set<int>, src: int, cap: Ext, dist: map<int, Ext>,
                   parent: map<int, int>, via: map<int, int>, q: set<(real, int)>,
                   settled: set<int>, floor: real, rank: map<int, nat>, u: int, j: int)
    requires InvMid(arcs, K, src, cap, dist, parent, via, q, settled, floor, rank, u, j)
    requires u in arcs ==> j >= |arcs[u]|
    ensures Inv(arcs, K, src, cap, dist, parent, via, q, settled, floor, rank)
  {
    assert AllRelaxed(arcs, K, cap, dist, u);
    assert settled == (settled - {u}) + {u};
  }

  /** The fundamental bound: a walk through nodes of `K` arrives no earlier
      than the distance of a settled end, and no earlier than the last popped
      key at an unsettled end. */
  lemma {:induction false} WalkBound(arcs: map<int, seq<Arc>>, K: set<int>, src: int, cap: Ext,
                                     dist: map<int, Ext>, S: set<int>, floor: real, w: seq<Hop>)
    requires ArcsPre(arcs) && ArcsFifo(arcs) && CapOk(cap) && DistOk(K, src, cap, dist)
    requires 0.0 <= floor && Lt(Fin(floor), cap)
    requires SettledOk(arcs, K, cap, dist, S, floor) && Above(K, cap, dist, S, floor)
    requires IsWalk(arcs, src, w) && Within(arcs, src, w, K)
    ensures End(arcs, src, w) in S ==> dist[End(arcs, src, w)].val <= Arrive(arcs, src, w, 0.0)
    ensures End(arcs, src, w) !in S ==> floor <= Arrive(arcs, src, w, 0.0)
    decreases |w|
  {
    if |w| == 0 {
      assert End(arcs, src, w) == src && Arrive(arcs, src, w, 0.0) == 0.0;
      if src !in S {
        assert Lt(dist[src], cap);
      }
    } else {
      var w' := w[..|w| - 1];
      var h := w[|w| - 1];
      WithinPrefix(arcs, src, w, K);
      WalkBound(arcs, K, src, cap, dist, S, floor, w');
      var x := End(arcs, src, w');
      var v := End(arcs, src, w);
      var c' := Arrive(arcs, src, w', 0.0);
      var a := arcs[h.from][h.idx];
      var c := c' + CostAt(a.cost, c');
      assert Arrive(arcs, src, w, 0.0) == c;
      assert h.from == x && a.to == v && v in K;
      if x in S {
        assert AllRelaxed(arcs, K, cap, dist, x);
        assert Relaxed(arcs, K, cap, dist, x, h.idx);
        var dx := dist[x].val;
        assert FifoCost(a.cost);
        assert dx + CostAt(a.cost, dx) <= c;
        if v in S {
          if !Lt(Fin(dx + CostAt(a.cost, dx)), cap) {
            assert Le(dist[v], cap);
          }
        } else {
          if Lt(dist[v], cap) {
            if !Lt(Fin(dx + CostAt(a.cost, dx)), cap) {
              assert Le(dist[v], cap);
            }
          }
        }
      } else {
        assert floor <= c';
      }
    }
  }

  /** With nothing left in the queue, every node reached by a walk through
      `K` below the initial value is settled. */
  lemma {:induction false} WalkReach(arcs: map<int, seq<Arc>>, K: set<int>, src: int, cap: Ext,
                                     dist: map<int, Ext>, S: set<int>, floor: real, w: seq<Hop>)
    requires ArcsPre(arcs) && ArcsFifo(arcs) && CapOk(cap) && DistOk(K, src, cap, dist)
    requires 0.0 <= floor && Lt(Fin(floor), cap) && SettledOk(arcs, K, cap, dist, S, floor)
    requires forall v :: v in K && Lt(dist[v], cap) ==> v in S
    requires IsWalk(arcs, src, w) && Within(arcs, src, w, K)
    requires Lt(Fin(Arrive(arcs, src, w, 0.0)), cap)
    ensures End(arcs, src, w) in S
    decreases |w|
  {
    if |w| == 0 {
      assert Lt(dist[src], cap);
    } else {
      var w' := w[..|w| - 1];
      var h := w[|w| - 1];
      WithinPrefix(arcs, src, w, K);
      var x := End(arcs, src, w');
      var c' := Arrive(arcs, src, w', 0.0);
      var a := arcs[h.from][h.idx];
      assert Arrive(arcs, src, w, 0.0) == c' + CostAt(a.cost, c');
      WalkReach(arcs, K, src, cap, dist, S, floor, w');
      WalkBound(arcs, K, src, cap, dist, S, floor, w');
      assert AllRelaxed(arcs, K, cap, dist, x);
      assert Relaxed(arcs, K, cap, dist, x, h.idx);
      var dx := dist[x].val;
      assert FifoCost(a.cost);
      assert dx + CostAt(a.cost, dx) <= c' + CostAt(a.cost, c');
    }
  }

  /** Popping the target unsettled: its distance is optimal. */
  lemma StopOptimal(arcs: map<int, seq<Arc>>, K: set<int>, src: int, cap: Ext, dist: map<int, Ext>,
                    parent: map<int, int>, via: map<int, int>, q: set<(real, int)>,
                    settled: set<int>, floor: real, rank: map<int, nat>, d: real, u: int)
    requires Inv(arcs, K, src, cap, dist, parent, via, q, settled, floor, rank)
    requires (d, u) in q && forall e :: e in q ==> EntryLe((d, u), e)
    requires u !in settled && u in dist && dist[u] == Fin(d)
    ensures Optimal(arcs, K, src, dist, u)
  {
    PopBounds(arcs, K, src, cap, dist, parent, via, q, settled, floor, rank, d, u);
    if ArcsFifo(arcs) {
      forall w | IsWalk(arcs, src, w) && Within(arcs, src, w, K) && End(arcs, src, w) == u
        ensures Le(dist[u], Fin(Arrive(arcs, src, w, 0.0)))
      {
        WalkBound(arcs, K, src, cap, dist, settled, d, w);
      }
    }
  }

  /** An empty queue: every distance is optimal and no entry can improve one. */
  lemma DrainOptimal(arcs: map<int, seq<Arc>>, K: set<int>, src: int, cap: Ext, dist: map<int, Ext>,
                     parent: map<int, int>, via: map<int, int>,
                     settled: set<int>, floor: real, rank: map<int, nat>)
    requires Inv(arcs, K, src, cap, dist, parent, via, {}, settled, floor, rank)
    ensures Closed(arcs, K, cap, dist)
    ensures forall v :: v in K ==> Optimal(arcs, K, src, dist, v)
  {
    assert forall v :: v in K && Lt(dist[v], cap) ==> v in settled by {
      assert PendingOk(K, cap, dist, {}, settled);
    }
    forall v | v in K
      ensures Optimal(arcs, K, src, dist, v)
    {
      if ArcsFifo(arcs) {
        forall w | IsWalk(arcs, src, w) && Within(arcs, src, w, K) && End(arcs, src, w) == v
          ensures Le(dist[v], Fin(Arrive(arcs, src, w, 0.0)))
        {
          if Lt(Fin(Arrive(arcs, src, w, 0.0)), cap) {
            WalkReach(arcs, K, src, cap, dist, settled, floor, w);
            WalkBound(arcs, K, src, cap, dist, settled, floor, w);
          }
        }
      }
    }
  }

  /** Relaxing the entries out of the just settled `u`, in order: an entry
      is skipped when unusable, and otherwise its target improves when
      `dist[u] + w < dist[v]`. */
  method RelaxOut(arcs: map<int, seq<Arc>>, K: set<int>, src: int, cap: Ext, dist0: map<int, Ext>,
                  parent0: map<int, int>, ghost via0: map<int, int>, q0: set<(real, int)>,
                  settled: set<int>, ghost floor: real, ghost rank: map<int, nat>, u: int)
    returns (dist: map<int, Ext>, parent: map<int, int>, ghost via: map<int, int>, q: set<(real, int)>)
    requires InvMid(arcs, K, src, cap, dist0, parent0, via0, q0, settled, floor, rank, u, 0)
    ensures Inv(arcs, K, src, cap, dist, parent, via, q, settled, floor, rank)
  {
    dist, parent, via, q := dist0, parent0, via0, q0;
    var j := 0;
    var edges := if u in arcs then arcs[u] else [];
    while j < |edges|
      invariant 0 <= j <= |edges| && (u in arcs ==> edges == arcs[u])
      invariant InvMid(arcs, K, src, cap, dist, parent, via, q, settled, floor, rank, u, j)
      decreases |edges| - j
    {
      var a := edges[j];
      var du := dist[u].val;
      if a.ok {
        var w := ArcCost(a.cost, du);
        var nd := du + w;
        if a.to !in dist {
          RelaxJunk(arcs, K, src, cap, dist, parent, via, q, settled, floor, rank, u, j, a.to);
          dist := dist[a.to := Fin(0.0)];
        }
        if Lt(Fin(nd), dist[a.to]) {
          RelaxImprove(arcs, K, src, cap, dist, parent, via, q, settled, floor, rank, u, j, nd);
          dist, parent, via, q := dist[a.to := Fin(nd)], parent[a.to := u], via[a.to := j], q + {(nd, a.to)};
        } else {
          RelaxKeep(arcs, K, src, cap, dist, parent, via, q, settled, floor, rank, u, j);
        }
      } else {
        RelaxKeep(arcs, K, src, cap, dist, parent, via, q, settled, floor, rank, u, j);
      }
      j := j + 1;
    }
    SettleDone(arcs, K, src, cap, dist, parent, via, q, settled, floor, rank, u, j);
  }

  /** What a pop leads to: a stale entry is dropped keeping the invariant,
      and an unsettled node's distance is already optimal and reached. */
  lemma Popped(arcs: map<int, seq<Arc>>, K: set<int>, src: int, cap: Ext, dist: map<int, Ext>,
               parent: map<int, int>, via: map<int, int>, q: set<(real, int)>,
               settled: set<int>, floor: real, rank: map<int, nat>, d: real, u: int)
    requires Inv(arcs, K, src, cap, dist, parent, via, q, settled, floor, rank)
    requires (d, u) in q && forall e :: e in q ==> EntryLe((d, u), e)
    ensures u in K && u in dist && dist[u].Fin? && dist[u].val <= d
    ensures u in settled <==> Lt(dist[u], Fin(d))
    ensures u !in settled ==> dist[u] == Fin(d)
    ensures u in settled ==> Inv(arcs, K, src, cap, dist, parent, via, q - {(d, u)}, settled, floor, rank)
    ensures u !in settled ==> Optimal(arcs, K, src, dist, u) && Reached(arcs, K, src, dist, u)
  {
    PopFacts(arcs, K, src, cap, dist, parent, via, q, settled, floor, rank, d, u);
    if u in settled {
      PopStale(arcs, K, src, cap, dist, parent, via, q, settled, floor, rank, d, u);
    } else {
      StopOptimal(arcs, K, src, cap, dist, parent, via, q, settled, floor, rank, d, u);
      StopReached(arcs, K, src, dist, u);
    }
  }

  /** The queue ran empty. */
  lemma Drained(arcs: map<int, seq<Arc>>, K: set<int>, src: int, cap: Ext, dist: map<int, Ext>,
                parent: map<int, int>, via: map<int, int>,
                settled: set<int>, floor: real, rank: map<int, nat>)
    requires Inv(arcs, K, src, cap, dist, parent, via, {}, settled, floor, rank)
    ensures Closed(arcs, K, cap, dist)
    ensures forall v :: v in K ==> Optimal(arcs, K, src, dist, v)
    ensures cap == Inf ==> forall v :: v in K ==> Reached(arcs, K, src, dist, v)
  {
    DrainOptimal(arcs, K, src, cap, dist, parent, via, settled, floor, rank);
    if cap == Inf {
      DrainReached(arcs, K, src, dist);
    }
  }

  /** Settling the popped unsettled `u` and relaxing its entries. */
  method Visit(arcs: map<int, seq<Arc>>, K: set<int>, src: int, cap: Ext, dist0: map<int, Ext>,
               parent0: map<int, int>, ghost via0: map<int, int>, q0: set<(real, int)>,
               visited0: set<int>, ghost floor0: real, ghost rank0: map<int, nat>, d: real, u: int)
    returns (dist: map<int, Ext>, parent: map<int, int>, ghost via: map<int, int>, q: set<(real, int)>,
             visited: set<int>, ghost floor: real, ghost rank: map<int, nat>)
    requires Inv(arcs, K, src, cap, dist0, parent0, via0, q0, visited0, floor0, rank0) && visited0 <= K
    requires (d, u) in q0 && forall e :: e in q0 ==> EntryLe((d, u), e)
    requires u !in visited0 && u in K && u in dist0 && dist0[u] == Fin(d)
    ensures Inv(arcs, K, src, cap, dist, parent, via, q, visited, floor, rank)
    ensures visited == visited0 + {u} && visited <= K && |visited| == |visited0| + 1 <= |K|
  {
    Settle(arcs, K, src, cap, dist0, parent0, via0, q0, visited0, floor0, rank0, d, u);
    SubsetCard(visited0 + {u}, K);
    visited, floor, rank := visited0 + {u}, d, rank0[u := |visited0|];
    dist, parent, via, q := RelaxOut(arcs, K, src, cap, dist0, parent0, via0, q0 - {(d, u)}, visited, floor, rank, u);
  }

  /** One round of the loop: pop the least entry, skip it when stale, stop
      when it is the target, and otherwise settle it and relax its entries. */
  method Step(arcs: map<int, seq<Arc>>, K: set<int>, src: int, target: Option<int>, cap: Ext,
              useVisited: bool, dist0: map<int, Ext>, parent0: map<int, int>, ghost via0: map<int, int>,
              q0: set<(real, int)>, visited0: set<int>, ghost floor0: real, ghost rank0: map<int, nat>)
    returns (dist: map<int, Ext>, parent: map<int, int>, ghost via: map<int, int>, q: set<(real, int)>,
             visited: set<int>, ghost floor: real, ghost rank: map<int, nat>, stop: bool)
    requires Inv(arcs, K, src, cap, dist0, parent0, via0, q0, visited0, floor0, rank0) && visited0 <= K
    requires q0 != {}
    ensures !stop ==> Inv(arcs, K, src, cap, dist, parent, via, q, visited, floor, rank) && visited <= K
    ensures !stop ==> |visited| == |visited0| + 1 <= |K| || (|visited| == |visited0| && |q| < |q0|)
    ensures stop ==> dist == dist0 && parent == parent0 && via == via0 && rank == rank0
    ensures stop ==> target.Some? && target.value in K
                     && Optimal(arcs, K, src, dist, target.value) && Reached(arcs, K, src, dist, target.value)
  {
    var d, u := PopMin(q0);
    Popped(arcs, K, src, cap, dist0, parent0, via0, q0, visited0, floor0, rank0, d, u);
    dist, parent, via, q, visited, floor, rank, stop := dist0, parent0, via0, q0, visited0, floor0, rank0, false;
    var stale := if useVisited then u in visited0 else d > dist0[u].val;
    if stale {
      q := q0 - {(d, u)};
    } else if target == Some(u) {
      stop := true;
    } else {
      dist, parent, via, q, visited, floor, rank := Visit(arcs, K, src, cap, dist0, parent0, via0, q0, visited0, floor0, rank0, d, u);
    }
  }

  /** The search loop shared by every Dijkstra of the programs.
      `K` holds the nodes with an initial distance (the graph's nodes and
      the source), `cap` the initial value, `target` the node whose pop ends
      the search (if any), and `useVisited` chooses between a visited set and
      the stale-entry test `d > dist[u]` for skipping outdated queue
      entries. An entry leading to a node without a distance is read as 0,
      as C++ `operator[]` does. */
  method Search(arcs: map<int, seq<Arc>>, K: set<int>, src: int, target: Option<int>, cap: Ext,
                useVisited: bool)
    returns (dist: map<int, Ext>, parent: map<int, int>, ghost via: map<int, int>, ghost rank: map<int, nat>)
    requires ArcsPre(arcs) && src in K && CapOk(cap)
    ensures DistOk(K, src, cap, dist)
    ensures TreeOk(arcs, K, src, cap, dist, parent, via, rank)
    ensures target.Some? && target.value in K ==> Optimal(arcs, K, src, dist, target.value)
    ensures target.None? ==> Closed(arcs, K, cap, dist)
    ensures target.None? ==> forall v :: v in K ==> Optimal(arcs, K, src, dist, v)
    ensures cap == Inf && target.Some? && target.value in K ==> Reached(arcs, K, src, dist, target.value)
    ensures cap == Inf && target.None? ==> forall v :: v in K ==> Reached(arcs, K, src, dist, v)
  {
    dist := InitDist(K, src, cap);
    parent, via, rank := map[], map[], map[];
    var q: set<(real, int)> := {(0.0, src)};
    var visited: set<int> := {};
    ghost var floor := 0.0;
    ghost var stopped := false;
    InitInv(arcs, K, src, cap);
    while q != {}
      invariant Inv(arcs, K, src, cap, dist, parent, via, q, visited, floor, rank)
      invariant visited <= K && |visited| <= |K|
      decreases |K| - |visited|, |q|
    {
      var stop;
      dist, parent, via, q, visited, floor, rank, stop :=
        Step(arcs, K, src, target, cap, useVisited, dist, parent, via, q, visited, floor, rank);
      if stop {
        stopped := true;
        break;
      }
    }
    if !stopped {
      Drained(arcs, K, src, cap, dist, parent, via, visited, floor, rank);
    }
  }

  /** A measure that strictly drops from a tree node to its parent. */
  function Height(rank: map<int, nat>, v: int): nat
  {
    if v in rank then rank[v] else |rank|
  }

  /** The walk the parent pointers spell out from the source to `v`; it
      arrives exactly at `v`'s distance. */
  ghost function TreeWalk(arcs: map<int, seq<Arc>>, K: set<int>, src: int, cap: Ext, dist: map<int, Ext>,
                          parent: map<int, int>, via: map<int, int>, rank: map<int, nat>, v: int): (w: seq<Hop>)
    requires ArcsPre(arcs) && DistOk(K, src, cap, dist) && TreeOk(arcs, K, src, cap, dist, parent, via, rank)
    requires v == src || v in parent
    ensures IsWalk(arcs, src, w) && Within(arcs, src, w, K) && End(arcs, src, w) == v
    ensures v in dist && dist[v].Fin? && Arrive(arcs, src, w, 0.0) == dist[v].val
    decreases Height(rank, v)
  {
    if v !in parent then
      assert Nodes(arcs, src, []) == [src];
      []
    else
      assert ParentOk(arcs, K, src, dist, parent, via, rank, v);
      var p := parent[v];
      var h := Hop(p, via[v]);
      var w' := TreeWalk(arcs, K, src, cap, dist, parent, via, rank, p);
      WalkExtend(arcs, src, w', h, K);
      ArriveExtend(arcs, src, w', h, 0.0);
      w' + [h]
  }

  /** The nodes of the tree walk to `v`. */
  ghost function TreePath(arcs: map<int, seq<Arc>>, K: set<int>, src: int, cap: Ext, dist: map<int, Ext>,
                          parent: map<int, int>, via: map<int, int>, rank: map<int, nat>, v: int): (path: seq<int>)
    requires ArcsPre(arcs) && DistOk(K, src, cap, dist) && TreeOk(arcs, K, src, cap, dist, parent, via, rank)
    requires v == src || v in parent
    ensures |path| >= 1 && path[0] == src && path[|path| - 1] == v
  {
    var w := TreeWalk(arcs, K, src, cap, dist, parent, via, rank, v);
    Nodes(arcs, src, w)
  }

  /** One step up the tree. */
  lemma TreePathStep(arcs: map<int, seq<Arc>>, K: set<int>, src: int, cap: Ext, dist: map<int, Ext>,
                     parent: map<int, int>, via: map<int, int>, rank: map<int, nat>, v: int)
    requires ArcsPre(arcs) && DistOk(K, src, cap, dist) && TreeOk(arcs, K, src, cap, dist, parent, via, rank)
    requires v == src || v in parent
    ensures v !in parent ==> v == src && TreePath(arcs, K, src, cap, dist, parent, via, rank, v) == [src]
    ensures v in parent ==> parent[v] == src || parent[v] in parent
    ensures v in parent ==> Height(rank, parent[v]) < Height(rank, v)
    ensures v in parent ==>
              TreePath(arcs, K, src, cap, dist, parent, via, rank, v)
              == TreePath(arcs, K, src, cap, dist, parent, via, rank, parent[v]) + [v]
  {
    if v in parent {
      assert ParentOk(arcs, K, src, dist, parent, via, rank, v);
      var p := parent[v];
      var w' := TreeWalk(arcs, K, src, cap, dist, parent, via, rank, p);
      WalkExtend(arcs, src, w', Hop(p, via[v]), K);
    } else {
      assert TreeWalk(arcs, K, src, cap, dist, parent, via, rank, v) == [];
    }
  }

  /** Heights rise strictly along a tree path and peak at its end. */
  lemma {:induction false} TreePathRises(arcs: map<int, seq<Arc>>, K: set<int>, src: int, cap: Ext, dist: map<int, Ext>,
                                         parent: map<int, int>, via: map<int, int>, rank: map<int, nat>, v: int)
    requires ArcsPre(arcs) && DistOk(K, src, cap, dist) && TreeOk(arcs, K, src, cap, dist, parent, via, rank)
    requires v == src || v in parent
    ensures var path := TreePath(arcs, K, src, cap, dist, parent, via, rank, v);
            (forall i :: 0 <= i < |path| ==> Height(rank, path[i]) <= Height(rank, v))
            && (forall i, j :: 0 <= i < j < |path| ==> Height(rank, path[i]) < Height(rank, path[j]))
    decreases Height(rank, v)
  {
    TreePathStep(arcs, K, src, cap, dist, parent, via, rank, v);
    if v in parent {
      TreePathRises(arcs, K, src, cap, dist, parent, via, rank, parent[v]);
    }
  }

  /** A tree path never repeats a node. */
  lemma TreePathSimple(arcs: map<int, seq<Arc>>, K: set<int>, src: int, cap: Ext, dist: map<int, Ext>,
                       parent: map<int, int>, via: map<int, int>, rank: map<int, nat>, v: int)
    requires ArcsPre(arcs) && DistOk(K, src, cap, dist) && TreeOk(arcs, K, src, cap, dist, parent, via, rank)
    requires v == src || v in parent
    ensures Distinct(TreePath(arcs, K, src, cap, dist, parent, via, rank, v))
  {
    TreePathRises(arcs, K, src, cap, dist, parent, via, rank, v);
  }

  /** The C++ reconstruction: follow `parent` from the target, stopping at
      the source, then reverse. */
  method TracePath(ghost arcs: map<int, seq<Arc>>, ghost K: set<int>, src: int, ghost cap: Ext,
                   ghost dist: map<int, Ext>, parent: map<int, int>, ghost via: map<int, int>,
                   ghost rank: map<int, nat>, target: int) returns (path: seq<int>)
    requires ArcsPre(arcs) && DistOk(K, src, cap, dist) && TreeOk(arcs, K, src, cap, dist, parent, via, rank)
    requires target == src || target in parent
    ensures path == TreePath(arcs, K, src, cap, dist, parent, via, rank, target)
  {
    var rev: seq<int> := [];
    var cur := target;
    ghost var goal := TreePath(arcs, K, src, cap, dist, parent, via, rank, target);
    while true
      invariant cur == src || cur in parent
      invariant goal == TreePath(arcs, K, src, cap, dist, parent, via, rank, cur) + Reverse(rev)
      decreases Height(rank, cur)
    {
      TreePathStep(arcs, K, src, cap, dist, parent, via, rank, cur);
      ReverseSnoc(rev, cur);
      if cur in parent {
        Assoc(TreePath(arcs, K, src, cap, dist, parent, via, rank, parent[cur]), [cur], Reverse(rev));
      }
      rev := rev + [cur];
      if cur == src {
        break;
      }
      cur := parent[cur];
    }
    path := Reverse(rev);
  }

  /** The autograder's reconstruction: follow `prev` from the target until a node
      without a predecessor, then reverse. */
  method TraceByPrev(ghost arcs: map<int, seq<Arc>>, ghost K: set<int>, ghost src: int, ghost cap: Ext,
                     ghost dist: map<int, Ext>, prev: map<int, int>, ghost via: map<int, int>,
                     ghost rank: map<int, nat>, target: int) returns (path: seq<int>)
    requires ArcsPre(arcs) && DistOk(K, src, cap, dist) && TreeOk(arcs, K, src, cap, dist, prev, via, rank)
    requires target == src || target in prev
    ensures path == TreePath(arcs, K, src, cap, dist, prev, via, rank, target)
  {
    var rev: seq<int> := [];
    var cur := target;
    ghost var goal := TreePath(arcs, K, src, cap, dist, prev, via, rank, target);
    while true
      invariant cur == src || cur in prev
      invariant goal == TreePath(arcs, K, src, cap, dist, prev, via, rank, cur) + Reverse(rev)
      decreases Height(rank, cur)
    {
      TreePathStep(arcs, K, src, cap, dist, prev, via, rank, cur);
      ReverseSnoc(rev, cur);
      if cur in prev {
        Assoc(TreePath(arcs, K, src, cap, dist, prev, via, rank, prev[cur]), [cur], Reverse(rev));
      }
      rev := rev + [cur];
      if cur !in prev {
        break;
      }
      cur := prev[cur];
    }
    path := Reverse(rev);
  }

  /** Under FIFO costs and an infinite initial value, an optimal distance of
      a node of `K` is exact: the tree walk attains it. */
  lemma OptimalExact(arcs: map<int, seq<Arc>>, K: set<int>, src: int, dist: map<int, Ext>,
                     parent: map<int, int>, via: map<int, int>, rank: map<int, nat>, v: int)
    requires ArcsPre(arcs) && ArcsFifo(arcs) && DistOk(K, src, Inf, dist)
    requires TreeOk(arcs, K, src, Inf, dist, parent, via, rank)
    requires v in K && Optimal(arcs, K, src, dist, v)
    ensures ExactDist(arcs, K, src, dist, v)
  {
    if dist[v].Fin? {
      var w := TreeWalk(arcs, K, src, Inf, dist, parent, via, rank, v);
      assert Route(arcs, K, src, v, w);
    }
  }
}
