// The Phase-2 approximate batch: weighted A* per query under one shared
// time budget. The clock is an oracle: `clock(t)` is the elapsed time in
// milliseconds at the `t`-th reading since the batch started, and readings
// are numbered in the order the code takes them. `sqrt` is likewise an
// oracle, only assumed non-negative on non-negative arguments.
module Approx {
  import opened Common
  import opened Walks
  import Phase1Algorithms
  import opened Phase2Algorithms

  const INF: real := SENTINEL

  /** `heuristic(g, current, target)`: the straight-line distance in
      degrees, 0 when either node is unknown. */
  function Heuristic(nodes: map<int, Node>, sqrt: real -> real, cur: int, tgt: int): real
  {
    if cur !in nodes || tgt !in nodes then 0.0
    else
      var dx := nodes[cur].lat - nodes[tgt].lat;
      var dy := nodes[cur].lon - nodes[tgt].lon;
      sqrt(dx * dx + dy * dy)
  }

  /** The heuristic never goes negative, and is 0 for an unknown node. */
  lemma HeuristicSpec(nodes: map<int, Node>, sqrt: real -> real, cur: int, tgt: int)
    requires forall x: real :: x >= 0.0 ==> sqrt(x) >= 0.0
    ensures Heuristic(nodes, sqrt, cur, tgt) >= 0.0
    ensures cur !in nodes || tgt !in nodes ==> Heuristic(nodes, sqrt, cur, tgt) == 0.0
  {
    if cur in nodes && tgt in nodes {
      var dx := nodes[cur].lat - nodes[tgt].lat;
      var dy := nodes[cur].lon - nodes[tgt].lon;
      assert dx * dx >= 0.0 && dy * dy >= 0.0;
    }
  }

  /** `(1 + epsilon) * h`, the weighted heuristic term of a priority. */
  function Weighted(epsilon: real, h: real): real
  {
    (1.0 + epsilon) * h
  }

  /** `std::pair<double, int>`'s `<=`. */
  predicate StateLe(x: (real, int), y: (real, int))
  {
    x.0 < y.0 || (x.0 == y.0 && x.1 <= y.1)
  }

  method PickM<T>(ms: multiset<T>) returns (x: T)
    requires ms != multiset{}
    ensures x in ms
  {
    x :| x in ms;
  }

  /** `pq.top(); pq.pop()` on the min-queue of (f-score, node) states. */
  method PopState(pq: multiset<(real, int)>) returns (x: (real, int))
    requires pq != multiset{}
    ensures x in pq && forall y :: y in pq ==> StateLe(x, y)
  {
    x := PickM(pq);
    var rest := pq - multiset{x};
    while rest != multiset{}
      invariant rest <= pq && x in pq
      invariant forall y :: y in pq ==> y in rest || StateLe(x, y)
      decreases |rest|
    {
      var y := PickM(rest);
      PopScan(pq, rest, x, y);
      if !StateLe(x, y) {
        x := y;
      }
      rest := rest - multiset{y};
    }
  }

  /** Comparing the least state so far with one more remaining state. */
  lemma PopScan(pq: multiset<(real, int)>, rest: multiset<(real, int)>, x: (real, int), y: (real, int))
    requires y in rest && forall z :: z in pq ==> z in rest || StateLe(x, z)
    ensures var m := if StateLe(x, y) then x else y;
            forall z :: z in pq ==> z in rest - multiset{y} || StateLe(m, z)
  {
    var m := if StateLe(x, y) then x else y;
    forall z | z in pq
      ensures z in rest - multiset{y} || StateLe(m, z)
    {
      if z !in rest - multiset{y} && z in rest {
        assert z == y;
      }
    }
  }

  /** `g_score[v]` for a neighbour: an unknown node reads as 0. */
  function Get(m: map<int, real>, v: int): real
  {
    if v in m then m[v] else 0.0
  }

  /** The search state: every node has scores in `[0, INF]`, and a node
      below `INF` is reached by a witnessed route of exactly its g-score. */
  ghost predicate ScoresOk(nodes: map<int, Node>, adj: map<int, seq<Edge>>, source: int,
                           gScore: map<int, real>, wit: map<int, seq<Hop>>)
  {
    gScore.Keys == nodes.Keys
    && (forall v :: v in gScore ==> 0.0 <= gScore[v] <= INF)
    && (forall v {:trigger Witnessed(nodes, adj, source, gScore, wit, v)} :: Witnessed(nodes, adj, source, gScore, wit, v))
  }

  /** A node below `INF` is reached by its witnessed route, of exactly its g-score. */
  ghost predicate Witnessed(nodes: map<int, Node>, adj: map<int, seq<Edge>>, source: int,
                            gScore: map<int, real>, wit: map<int, seq<Hop>>, v: int)
  {
    v in gScore && gScore[v] < INF ==>
      v in wit && Route(LengthView(adj), nodes.Keys, source, v, wit[v])
      && ArcsPre(LengthView(adj)) && Arrive(LengthView(adj), source, wit[v], 0.0) == gScore[v]
  }

  /** One successful relaxation keeps the scores witnessed. */
  lemma RelaxStep(nodes: map<int, Node>, adj: map<int, seq<Edge>>, source: int,
                  gScore: map<int, real>, wit: map<int, seq<Hop>>, u: int, k: int)
    requires Phase1Algorithms.CostsOk(adj, false) && ScoresOk(nodes, adj, source, gScore, wit) && u in adj && u in gScore && 0 <= k < |adj[u]|
    requires adj[u][k].v in gScore && gScore[u] + adj[u][k].length < gScore[adj[u][k].v]
    ensures gScore[u] < INF && u in wit
    ensures ScoresOk(nodes, adj, source, gScore[adj[u][k].v := gScore[u] + adj[u][k].length],
                     wit[adj[u][k].v := wit[u] + [Hop(u, k)]])
  {
    var arcs := LengthView(adj);
    var e := adj[u][k];
    assert e.length >= 0.0;
    var h := Hop(u, k);
    assert arcs[u][k] == Phase1Algorithms.EntryArc(e, false, {}, {});
    assert Witnessed(nodes, adj, source, gScore, wit, u);
    WalkExtend(arcs, source, wit[u], h, nodes.Keys);
    ArriveExtend(arcs, source, wit[u], h, 0.0);
    var g := gScore[e.v := gScore[u] + e.length];
    var wt := wit[e.v := wit[u] + [h]];
    forall x
      ensures Witnessed(nodes, adj, source, g, wt, x)
    {
      if x != e.v {
        assert Witnessed(nodes, adj, source, gScore, wit, x);
      }
    }
  }

  /** Every queued state names a node of the graph whose g-score is
      finite, and f-scores are kept for exactly the graph's nodes. */
  predicate QueueOk(nodes: map<int, Node>, gScore: map<int, real>, fScore: map<int, real>,
                    pq: multiset<(real, int)>)
  {
    fScore.Keys == nodes.Keys && forall x :: x in pq ==> x.1 in nodes && x.1 in gScore && gScore[x.1] < INF
  }

  /** Scores only improve, and those of closed nodes stay as they were. */
  predicate Improves(gScore0: map<int, real>, gScore: map<int, real>, closed: set<int>)
  {
    gScore.Keys == gScore0.Keys
    && forall v :: v in gScore0 ==> gScore[v] <= gScore0[v] && (v in closed ==> gScore[v] == gScore0[v])
  }

  /** A better score for an open node, with its queue entry, keeps the queue
      well formed and only improves the scores. */
  lemma ImproveKeeps(nodes: map<int, Node>, gScore0: map<int, real>, fScore0: map<int, real>,
                     pq0: multiset<(real, int)>, closed: set<int>, v: int, t: real, f: real)
    requires QueueOk(nodes, gScore0, fScore0, pq0) && gScore0.Keys == nodes.Keys
    requires v in nodes && v !in closed && t < gScore0[v] && t < INF
    ensures QueueOk(nodes, gScore0[v := t], fScore0[v := f], pq0 + multiset{(f, v)})
    ensures Improves(gScore0, gScore0[v := t], closed)
  {
  }

  /** Every crossing of the network is at most `M` long. */
  predicate LengthsAtMost(adj: map<int, seq<Edge>>, M: real)
  {
    forall u, k :: u in adj && 0 <= k < |adj[u]| ==> adj[u][k].length <= M
  }

  /** Lengths bounded by an `M` for which one crossing more than there are
      nodes still sums below `INF`: then no g-score the search builds,
      hop after hop from closed nodes, reaches the `INF` sentinel. */
  ghost predicate ShortBy(nodes: map<int, Node>, adj: map<int, seq<Edge>>, M: real)
  {
    0.0 <= M && LengthsAtMost(adj, M) && (|nodes.Keys| + 1) as real * M < INF
  }

  ghost predicate Short(nodes: map<int, Node>, adj: map<int, seq<Edge>>)
  {
    exists M :: ShortBy(nodes, adj, M)
  }

  /** A reached node's f-score is its g-score plus the weighted heuristic. */
  ghost predicate Priorities(nodes: map<int, Node>, sqrt: real -> real, target: int, epsilon: real,
                             gScore: map<int, real>, fScore: map<int, real>)
  {
    forall v :: v in gScore && gScore[v] < INF ==>
      v in fScore && fScore[v] == gScore[v] + Weighted(epsilon, Heuristic(nodes, sqrt, v, target))
  }

  /** A reached node not yet closed has its current state on the queue. */
  ghost predicate OpenQueued(closed: set<int>, gScore: map<int, real>, fScore: map<int, real>, pq: multiset<(real, int)>)
  {
    forall v :: v in gScore && gScore[v] < INF && v !in closed ==> v in fScore && (fScore[v], v) in pq
  }

  /** A queued state of an open node is its current state or a stale one
      with a larger f-score. */
  ghost predicate EntriesAbove(closed: set<int>, fScore: map<int, real>, pq: multiset<(real, int)>)
  {
    forall x :: x in pq && x.1 !in closed ==> x.1 in fScore && x.0 >= fScore[x.1]
  }

  ghost predicate ClosedReached(closed: set<int>, gScore: map<int, real>)
  {
    forall v :: v in closed ==> v in gScore && gScore[v] < INF
  }

  /** Entries `0..n` of `u`'s list lead to closed nodes, or to nodes whose
      g-score is at most `u`'s plus the entry's length. */
  ghost predicate Covered(adj: map<int, seq<Edge>>, closed: set<int>, gScore: map<int, real>, u: int, n: int)
    requires u in adj && n <= |adj[u]|
  {
    forall j :: 0 <= j < n && adj[u][j].v in gScore ==>
      adj[u][j].v in closed || (u in gScore && gScore[adj[u][j].v] <= gScore[u] + adj[u][j].length)
  }

  /** Every node of `done` other than the target has had its whole list relaxed. */
  ghost predicate Closure(adj: map<int, seq<Edge>>, target: int, done: set<int>, closed: set<int>, gScore: map<int, real>)
  {
    forall u :: u in done && u != target && u in adj ==> Covered(adj, closed, gScore, u, |adj[u]|)
  }

  /** Under lengths at most `M`, a finite g-score is at most `M` per closed node. */
  ghost predicate Hops(adj: map<int, seq<Edge>>, closed: set<int>, gScore: map<int, real>, M: real)
  {
    0.0 <= M && LengthsAtMost(adj, M) ==>
      forall v :: v in gScore && gScore[v] < INF ==> gScore[v] <= |closed| as real * M
  }

  /** What the search keeps between pops, beyond `ScoresOk` and `QueueOk`. */
  ghost predicate Frontier(nodes: map<int, Node>, adj: map<int, seq<Edge>>, source: int, target: int, epsilon: real,
                           sqrt: real -> real, M: real, closed: set<int>,
                           gScore: map<int, real>, fScore: map<int, real>, pq: multiset<(real, int)>)
  {
    source in gScore && gScore[source] < INF
    && Priorities(nodes, sqrt, target, epsilon, gScore, fScore) && OpenQueued(closed, gScore, fScore, pq)
    && EntriesAbove(closed, fScore, pq) && ClosedReached(closed, gScore)
    && Closure(adj, target, closed, closed, gScore) && Hops(adj, closed, gScore, M)
  }

  /** The same while `u`, just closed, has its first `n` entries relaxed. */
  ghost predicate Pending(nodes: map<int, Node>, adj: map<int, seq<Edge>>, source: int, target: int, epsilon: real,
                          sqrt: real -> real, M: real, closed: set<int>,
                          gScore: map<int, real>, fScore: map<int, real>, pq: multiset<(real, int)>, u: int, n: int)
    requires u in adj && n <= |adj[u]|
  {
    source in gScore && gScore[source] < INF && u in closed && u in gScore
    && Priorities(nodes, sqrt, target, epsilon, gScore, fScore) && OpenQueued(closed, gScore, fScore, pq)
    && EntriesAbove(closed, fScore, pq) && ClosedReached(closed, gScore)
    && Closure(adj, target, closed - {u}, closed, gScore) && Covered(adj, closed, gScore, u, n)
    && Hops(adj, closed, gScore, M)
    && (0.0 <= M && LengthsAtMost(adj, M) ==> gScore[u] <= (|closed| - 1) as real * M)
  }

  /** Coverage survives closing more nodes and improving open scores. */
  lemma CoveredMono(adj: map<int, seq<Edge>>, c0: set<int>, c: set<int>, g0: map<int, real>, g: map<int, real>, u: int)
    requires u in adj && c0 <= c && g0.Keys == g.Keys && (u in g0 ==> g[u] == g0[u])
    requires forall v :: v in g0 ==> g[v] <= g0[v]
    requires Covered(adj, c0, g0, u, |adj[u]|)
    ensures Covered(adj, c, g, u, |adj[u]|)
  {
    forall j | 0 <= j < |adj[u]| && adj[u][j].v in g
      ensures adj[u][j].v in c || g[adj[u][j].v] <= g[u] + adj[u][j].length
    {
    }
  }

  /** The first pop of a node takes its current state: the current state is
      queued, and a stale one has a larger f-score, so it pops later. */
  lemma CurrentPop(nodes: map<int, Node>, adj: map<int, seq<Edge>>, source: int, target: int, epsilon: real,
                   sqrt: real -> real, M: real, closed: set<int>,
                   gScore: map<int, real>, fScore: map<int, real>, pq: multiset<(real, int)>, st: (real, int))
    requires Frontier(nodes, adj, source, target, epsilon, sqrt, M, closed, gScore, fScore, pq)
    requires QueueOk(nodes, gScore, fScore, pq)
    requires st in pq && (forall y :: y in pq ==> StateLe(st, y)) && st.1 !in closed
    ensures st.1 in fScore && st.0 == fScore[st.1]
  {
    var u := st.1;
    assert (fScore[u], u) in pq;
    assert StateLe(st, (fScore[u], u));
  }

  /** Dropping a state of a closed node. */
  lemma PopFrontier(nodes: map<int, Node>, adj: map<int, seq<Edge>>, source: int, target: int, epsilon: real,
                    sqrt: real -> real, M: real, closed: set<int>,
                    gScore: map<int, real>, fScore: map<int, real>, pq: multiset<(real, int)>, st: (real, int))
    requires Frontier(nodes, adj, source, target, epsilon, sqrt, M, closed, gScore, fScore, pq)
    requires st in pq && st.1 in closed
    ensures Frontier(nodes, adj, source, target, epsilon, sqrt, M, closed, gScore, fScore, pq - multiset{st})
  {
    var pq' := pq - multiset{st};
    forall v | v in gScore && gScore[v] < INF && v !in closed
      ensures (fScore[v], v) in pq'
    {
      assert (fScore[v], v) in pq && (fScore[v], v) != st;
    }
  }

  /** Removing a state whose node is closed now, with more nodes closed. */
  lemma OpenQueuedPop(closed: set<int>, c: set<int>, gScore: map<int, real>, fScore: map<int, real>,
                      pq: multiset<(real, int)>, st: (real, int))
    requires OpenQueued(closed, gScore, fScore, pq) && closed <= c && st.1 in c
    ensures OpenQueued(c, gScore, fScore, pq - multiset{st})
  {
    forall v | v in gScore && gScore[v] < INF && v !in c
      ensures (fScore[v], v) in pq - multiset{st}
    {
      assert (fScore[v], v) in pq && (fScore[v], v) != st;
    }
  }

  lemma EntriesPop(closed: set<int>, c: set<int>, fScore: map<int, real>, pq: multiset<(real, int)>, st: (real, int))
    requires EntriesAbove(closed, fScore, pq) && closed <= c
    ensures EntriesAbove(c, fScore, pq - multiset{st})
  {
  }

  lemma ClosureGrow(adj: map<int, seq<Edge>>, target: int, done: set<int>, c0: set<int>, c: set<int>, gScore: map<int, real>)
    requires Closure(adj, target, done, c0, gScore) && c0 <= c
    ensures Closure(adj, target, done, c, gScore)
  {
    forall x | x in done && x != target && x in adj
      ensures Covered(adj, c, gScore, x, |adj[x]|)
    {
      CoveredMono(adj, c0, c, gScore, gScore, x);
    }
  }

  lemma HopsGrow(adj: map<int, seq<Edge>>, c0: set<int>, c: set<int>, gScore: map<int, real>, M: real)
    requires Hops(adj, c0, gScore, M) && |c0| <= |c|
    ensures Hops(adj, c, gScore, M)
  {
    if 0.0 <= M && LengthsAtMost(adj, M) {
      assert |c0| as real * M <= |c| as real * M;
    }
  }

  /** Closing the popped node without relaxing it (it is the target, or it
      has no adjacency list). */
  lemma CloseFrontier(nodes: map<int, Node>, adj: map<int, seq<Edge>>, source: int, target: int, epsilon: real,
                      sqrt: real -> real, M: real, closed: set<int>,
                      gScore: map<int, real>, fScore: map<int, real>, pq: multiset<(real, int)>, st: (real, int))
    requires Frontier(nodes, adj, source, target, epsilon, sqrt, M, closed, gScore, fScore, pq)
    requires QueueOk(nodes, gScore, fScore, pq)
    requires st in pq && st.1 !in closed && (st.1 == target || st.1 !in adj)
    ensures Frontier(nodes, adj, source, target, epsilon, sqrt, M, closed + {st.1}, gScore, fScore, pq - multiset{st})
  {
    var u := st.1;
    var c := closed + {u};
    OpenQueuedPop(closed, c, gScore, fScore, pq, st);
    EntriesPop(closed, c, fScore, pq, st);
    ClosureGrow(adj, target, closed, closed, c, gScore);
    HopsGrow(adj, closed, c, gScore, M);
    assert Closure(adj, target, c, c, gScore) by {
      forall x | x in c && x != target && x in adj
        ensures Covered(adj, c, gScore, x, |adj[x]|)
      {
        assert x in closed;
      }
    }
  }

  /** Closing the popped node before relaxing its list. */
  lemma OpenPending(nodes: map<int, Node>, adj: map<int, seq<Edge>>, source: int, target: int, epsilon: real,
                    sqrt: real -> real, M: real, closed: set<int>,
                    gScore: map<int, real>, fScore: map<int, real>, pq: multiset<(real, int)>, st: (real, int))
    requires Frontier(nodes, adj, source, target, epsilon, sqrt, M, closed, gScore, fScore, pq)
    requires QueueOk(nodes, gScore, fScore, pq)
    requires st in pq && st.1 !in closed && st.1 in adj
    ensures Pending(nodes, adj, source, target, epsilon, sqrt, M, closed + {st.1}, gScore, fScore, pq - multiset{st}, st.1, 0)
  {
    var u := st.1;
    var c := closed + {u};
    OpenQueuedPop(closed, c, gScore, fScore, pq, st);
    EntriesPop(closed, c, fScore, pq, st);
    ClosureGrow(adj, target, closed, closed, c, gScore);
    HopsGrow(adj, closed, c, gScore, M);
    assert c - {u} == closed;
    assert |c| == |closed| + 1;
  }

  /** With the whole list of `u` relaxed, `u` is covered like the others. */
  lemma PendingDone(nodes: map<int, Node>, adj: map<int, seq<Edge>>, source: int, target: int, epsilon: real,
                    sqrt: real -> real, M: real, closed: set<int>,
                    gScore: map<int, real>, fScore: map<int, real>, pq: multiset<(real, int)>, u: int)
    requires u in adj && Pending(nodes, adj, source, target, epsilon, sqrt, M, closed, gScore, fScore, pq, u, |adj[u]|)
    ensures Frontier(nodes, adj, source, target, epsilon, sqrt, M, closed, gScore, fScore, pq)
  {
    forall x | x in closed && x != target && x in adj
      ensures Covered(adj, closed, gScore, x, |adj[x]|)
    {
      if x != u {
        assert x in closed - {u};
      }
    }
  }

  /** Entry `k` of `u`'s list left as it was: it leads to a closed node or
      to one already as close. */
  lemma RelaxKept(nodes: map<int, Node>, adj: map<int, seq<Edge>>, source: int, target: int, epsilon: real,
                  sqrt: real -> real, M: real, closed: set<int>,
                  gScore: map<int, real>, fScore: map<int, real>, pq: multiset<(real, int)>, u: int, k: int,
                  gScore': map<int, real>, fScore': map<int, real>, pq': multiset<(real, int)>)
    requires u in adj && 0 <= k < |adj[u]|
    requires Pending(nodes, adj, source, target, epsilon, sqrt, M, closed, gScore, fScore, pq, u, k)
    requires !(adj[u][k].v !in closed && gScore[u] + adj[u][k].length < Get(gScore, adj[u][k].v))
    requires gScore' == gScore && fScore' == fScore && pq' == pq
    ensures Pending(nodes, adj, source, target, epsilon, sqrt, M, closed, gScore', fScore', pq', u, k + 1)
  {
  }

  /** Entry `k` of `u`'s list improving open node `v` to `t`: the new state
      is `v`'s current one, its old states are now stale, and its new
      g-score is within one more crossing of `u`'s. */
  lemma RelaxImproved(nodes: map<int, Node>, adj: map<int, seq<Edge>>, source: int, target: int, epsilon: real,
                      sqrt: real -> real, M: real, closed: set<int>,
                      gScore: map<int, real>, fScore: map<int, real>, pq: multiset<(real, int)>, u: int, k: int,
                      v: int, t: real, f: real, gScore': map<int, real>, fScore': map<int, real>, pq': multiset<(real, int)>)
    requires u in adj && 0 <= k < |adj[u]| && Phase1Algorithms.CostsOk(adj, false)
    requires Pending(nodes, adj, source, target, epsilon, sqrt, M, closed, gScore, fScore, pq, u, k)
    requires QueueOk(nodes, gScore, fScore, pq)
    requires v == adj[u][k].v && v in gScore && v !in closed
    requires t == gScore[u] + adj[u][k].length && t < gScore[v]
    requires f == t + Weighted(epsilon, Heuristic(nodes, sqrt, v, target))
    requires gScore' == gScore[v := t] && fScore' == fScore[v := f] && pq' == pq + multiset{(f, v)}
    ensures Pending(nodes, adj, source, target, epsilon, sqrt, M, closed, gScore', fScore', pq', u, k + 1)
  {
    EntriesImproved(nodes, sqrt, target, epsilon, closed, gScore, fScore, pq, v, t);
    OpenQueuedImproved(closed, gScore, fScore, pq, v, t, f);
    ClosureImproved(adj, target, closed - {u}, closed, gScore, v, t);
    CoveredStep(adj, closed, gScore, u, k, t);
    HopsImproved(adj, closed, gScore, M, u, k, t);
  }

  /** Entry `k` of `u`'s list, relaxed to `t`, joins the covered entries. */
  lemma CoveredStep(adj: map<int, seq<Edge>>, closed: set<int>, gScore: map<int, real>, u: int, k: int, t: real)
    requires u in adj && 0 <= k < |adj[u]| && u in closed && u in gScore && Covered(adj, closed, gScore, u, k)
    requires adj[u][k].v in gScore && adj[u][k].v !in closed && t == gScore[u] + adj[u][k].length && t < gScore[adj[u][k].v]
    ensures Covered(adj, closed, gScore[adj[u][k].v := t], u, k + 1)
  {
    var g := gScore[adj[u][k].v := t];
    forall j | 0 <= j < k + 1 && adj[u][j].v in g
      ensures adj[u][j].v in closed || g[adj[u][j].v] <= g[u] + adj[u][j].length
    {
    }
  }

  /** The new g-score is at most one crossing more than `u`'s. */
  lemma HopsImproved(adj: map<int, seq<Edge>>, closed: set<int>, gScore: map<int, real>, M: real, u: int, k: int, t: real)
    requires u in adj && 0 <= k < |adj[u]| && u in gScore && adj[u][k].v in gScore && Hops(adj, closed, gScore, M)
    requires 0.0 <= M && LengthsAtMost(adj, M) ==> gScore[u] <= (|closed| - 1) as real * M
    requires t == gScore[u] + adj[u][k].length && t < gScore[adj[u][k].v]
    ensures Hops(adj, closed, gScore[adj[u][k].v := t], M)
  {
    if 0.0 <= M && LengthsAtMost(adj, M) {
      assert adj[u][k].length <= M;
      assert t <= |closed| as real * M;
    }
  }

  /** A better score for open `v`: its old states, whose f-scores were at
      least its old f-score, are above the new one. */
  lemma EntriesImproved(nodes: map<int, Node>, sqrt: real -> real, target: int, epsilon: real, closed: set<int>,
                        gScore: map<int, real>, fScore: map<int, real>, pq: multiset<(real, int)>, v: int, t: real)
    requires EntriesAbove(closed, fScore, pq) && Priorities(nodes, sqrt, target, epsilon, gScore, fScore)
    requires forall x :: x in pq ==> x.1 in gScore && gScore[x.1] < INF
    requires v in gScore && t < gScore[v]
    ensures var f := t + Weighted(epsilon, Heuristic(nodes, sqrt, v, target));
            EntriesAbove(closed, fScore[v := f], pq + multiset{(f, v)})
    ensures var f := t + Weighted(epsilon, Heuristic(nodes, sqrt, v, target));
            t < INF ==> Priorities(nodes, sqrt, target, epsilon, gScore[v := t], fScore[v := f])
  {
    var f := t + Weighted(epsilon, Heuristic(nodes, sqrt, v, target));
    forall x | x in pq + multiset{(f, v)} && x.1 !in closed
      ensures x.1 in fScore[v := f] && x.0 >= fScore[v := f][x.1]
    {
      if x != (f, v) && x.1 == v {
        assert x in pq;
      }
    }
  }

  lemma OpenQueuedImproved(closed: set<int>, gScore: map<int, real>, fScore: map<int, real>, pq: multiset<(real, int)>,
                           v: int, t: real, f: real)
    requires OpenQueued(closed, gScore, fScore, pq)
    ensures OpenQueued(closed, gScore[v := t], fScore[v := f], pq + multiset{(f, v)})
  {
  }

  lemma ClosureImproved(adj: map<int, seq<Edge>>, target: int, done: set<int>, closed: set<int>,
                        gScore: map<int, real>, v: int, t: real)
    requires Closure(adj, target, done, closed, gScore) && done <= closed
    requires v in gScore && v !in closed && t <= gScore[v]
    ensures Closure(adj, target, done, closed, gScore[v := t])
  {
    var g := gScore[v := t];
    forall x | x in done && x != target && x in adj
      ensures Covered(adj, closed, g, x, |adj[x]|)
    {
      CoveredMono(adj, closed, closed, gScore, g, x);
    }
  }

  /** A walk from the source through the graph's nodes ends at a closed node
      once the queue is empty: the source is closed, and each crossing out
      of a closed node other than the target leads to a closed node or to a
      finite score, which an empty queue leaves only to closed nodes. */
  lemma {:induction false} ReachClosed(nodes: map<int, Node>, adj: map<int, seq<Edge>>, source: int, target: int,
                                       epsilon: real, sqrt: real -> real, M: real, closed: set<int>,
                                       gScore: map<int, real>, fScore: map<int, real>, w: seq<Hop>)
    requires Frontier(nodes, adj, source, target, epsilon, sqrt, M, closed, gScore, fScore, multiset{})
    requires ShortBy(nodes, adj, M) && gScore.Keys == nodes.Keys && |closed| <= |nodes.Keys| && target !in closed
    requires IsWalk(LengthView(adj), source, w) && Within(LengthView(adj), source, w, nodes.Keys)
    ensures End(LengthView(adj), source, w) in closed
    decreases |w|
  {
    var arcs := LengthView(adj);
    if |w| == 0 {
      assert source in closed;
    } else {
      var p := w[..|w| - 1];
      var h := w[|w| - 1];
      LastHop(adj, source, w);
      WithinPrefix(arcs, source, w, nodes.Keys);
      ReachClosed(nodes, adj, source, target, epsilon, sqrt, M, closed, gScore, fScore, p);
      HopBound(nodes, adj, closed, gScore, M, h.from, h.idx);
      StepClosed(adj, closed, gScore, fScore, h.from, h.idx);
    }
  }

  /** The last hop of a walk over the lengths: a crossing out of the end of
      the shorter walk, to the end of the longer one. */
  lemma LastHop(adj: map<int, seq<Edge>>, source: int, w: seq<Hop>)
    requires IsWalk(LengthView(adj), source, w) && |w| > 0
    ensures var h := w[|w| - 1];
            IsWalk(LengthView(adj), source, w[..|w| - 1]) && h.from in adj && 0 <= h.idx < |adj[h.from]|
            && h.from == End(LengthView(adj), source, w[..|w| - 1]) && End(LengthView(adj), source, w) == adj[h.from][h.idx].v
  {
    var h := w[|w| - 1];
    assert LengthView(adj)[h.from][h.idx] == Phase1Algorithms.EntryArc(adj[h.from][h.idx], false, {}, {});
  }

  /** Under bounded lengths a crossing out of a closed node stays below `INF`. */
  lemma HopBound(nodes: map<int, Node>, adj: map<int, seq<Edge>>, closed: set<int>, gScore: map<int, real>, M: real, u: int, j: int)
    requires ShortBy(nodes, adj, M) && Hops(adj, closed, gScore, M) && ClosedReached(closed, gScore)
    requires |closed| <= |nodes.Keys| && u in closed && u in adj && 0 <= j < |adj[u]|
    ensures u in gScore && gScore[u] + adj[u][j].length < INF
  {
    assert gScore[u] <= |closed| as real * M;
    assert |closed| as real * M <= |nodes.Keys| as real * M;
    assert adj[u][j].length <= M;
    assert (|nodes.Keys| + 1) as real * M == |nodes.Keys| as real * M + M;
  }

  /** With the queue empty, a crossing below `INF` out of a covered node
      leads to a closed node. */
  lemma StepClosed(adj: map<int, seq<Edge>>, closed: set<int>, gScore: map<int, real>, fScore: map<int, real>, u: int, j: int)
    requires u in adj && 0 <= j < |adj[u]| && Covered(adj, closed, gScore, u, |adj[u]|)
    requires OpenQueued(closed, gScore, fScore, multiset{}) && adj[u][j].v in gScore
    requires u in gScore && gScore[u] + adj[u][j].length < INF
    ensures adj[u][j].v in closed
  {
    var v := adj[u][j].v;
    assert Get(gScore, v) < INF || v in closed;
  }

  /** An emptied queue without the target closed: under bounded lengths no
      route reaches the target. */
  lemma Exhausted(nodes: map<int, Node>, adj: map<int, seq<Edge>>, source: int, target: int, epsilon: real,
                  sqrt: real -> real, M: real, closed: set<int>, gScore: map<int, real>, fScore: map<int, real>)
    requires Frontier(nodes, adj, source, target, epsilon, sqrt, M, closed, gScore, fScore, multiset{})
    requires ShortBy(nodes, adj, M) && gScore.Keys == nodes.Keys && |closed| <= |nodes.Keys| && target !in closed
    ensures NoRoute(LengthView(adj), nodes.Keys, source, target)
  {
    forall w
      ensures !Route(LengthView(adj), nodes.Keys, source, target, w)
    {
      if Route(LengthView(adj), nodes.Keys, source, target, w) {
        ReachClosed(nodes, adj, source, target, epsilon, sqrt, M, closed, gScore, fScore, w);
      }
    }
  }

  /** One iteration of the loop over `g.adj.at(u)`: a neighbour not closed
      whose tentative score beats its g-score gets the better score, a new
      f-score and a queue entry. */
  method RelaxEntry(nodes: map<int, Node>, adj: map<int, seq<Edge>>, source: int, target: int, epsilon: real,
                    sqrt: real -> real, u: int, k: int, closed: set<int>,
                    gScore0: map<int, real>, fScore0: map<int, real>, pq0: multiset<(real, int)>,
                    ghost wit0: map<int, seq<Hop>>)
    returns (gScore: map<int, real>, fScore: map<int, real>, pq: multiset<(real, int)>, ghost wit: map<int, seq<Hop>>)
    requires Phase1Algorithms.CostsOk(adj, false) && ScoresOk(nodes, adj, source, gScore0, wit0) && QueueOk(nodes, gScore0, fScore0, pq0)
    requires u in adj && u in nodes && u in closed && 0 <= k < |adj[u]|
    ensures ScoresOk(nodes, adj, source, gScore, wit) && QueueOk(nodes, gScore, fScore, pq)
    ensures pq0 <= pq && Improves(gScore0, gScore, closed)
    ensures RelaxedBy(nodes, adj, target, epsilon, sqrt, u, k, closed, gScore0, fScore0, pq0, gScore, fScore, pq)
  {
    gScore, fScore, pq := RelaxScores(nodes, adj, target, epsilon, sqrt, u, k, closed, gScore0, fScore0, pq0);
    var e := adj[u][k];
    if e.v !in closed && gScore0[u] + e.length < Get(gScore0, e.v) {
      RelaxStep(nodes, adj, source, gScore0, wit0, u, k);
      ImproveKeeps(nodes, gScore0, fScore0, pq0, closed, e.v, gScore[e.v], fScore[e.v]);
      wit := wit0[e.v := wit0[u] + [Hop(u, k)]];
    } else {
      wit := wit0;
    }
  }

  /** The loop body keeps the search invariants, with entry `k` of `u`'s
      list now relaxed. */
  lemma RelaxPending(nodes: map<int, Node>, adj: map<int, seq<Edge>>, source: int, target: int, epsilon: real,
                     sqrt: real -> real, M: real, u: int, k: int, closed: set<int>,
                     gScore0: map<int, real>, fScore0: map<int, real>, pq0: multiset<(real, int)>,
                     gScore: map<int, real>, fScore: map<int, real>, pq: multiset<(real, int)>)
    requires Phase1Algorithms.CostsOk(adj, false) && QueueOk(nodes, gScore0, fScore0, pq0) && gScore0.Keys == nodes.Keys
    requires u in adj && 0 <= k < |adj[u]| && u in gScore0 && 0.0 <= gScore0[u]
    requires Pending(nodes, adj, source, target, epsilon, sqrt, M, closed, gScore0, fScore0, pq0, u, k)
    requires RelaxedBy(nodes, adj, target, epsilon, sqrt, u, k, closed, gScore0, fScore0, pq0, gScore, fScore, pq)
    ensures Pending(nodes, adj, source, target, epsilon, sqrt, M, closed, gScore, fScore, pq, u, k + 1)
  {
    var e := adj[u][k];
    if e.v !in closed && gScore0[u] + e.length < Get(gScore0, e.v) {
      var t := gScore0[u] + e.length;
      RelaxImproved(nodes, adj, source, target, epsilon, sqrt, M, closed, gScore0, fScore0, pq0, u, k,
                    e.v, t, t + Weighted(epsilon, Heuristic(nodes, sqrt, e.v, target)), gScore, fScore, pq);
    } else {
      RelaxKept(nodes, adj, source, target, epsilon, sqrt, M, closed, gScore0, fScore0, pq0, u, k, gScore, fScore, pq);
    }
  }

  /** The new scores and queue after entry `k` of `u`'s list, as the loop body
      leaves them. */
  predicate RelaxedBy(nodes: map<int, Node>, adj: map<int, seq<Edge>>, target: int, epsilon: real,
                      sqrt: real -> real, u: int, k: int, closed: set<int>,
                      gScore0: map<int, real>, fScore0: map<int, real>, pq0: multiset<(real, int)>,
                      gScore: map<int, real>, fScore: map<int, real>, pq: multiset<(real, int)>)
    requires u in adj && u in gScore0 && 0 <= k < |adj[u]|
  {
    var e := adj[u][k];
    if e.v !in closed && gScore0[u] + e.length < Get(gScore0, e.v)
    then var g := gScore0[u] + e.length;
         var f := g + Weighted(epsilon, Heuristic(nodes, sqrt, e.v, target));
         gScore == gScore0[e.v := g] && fScore == fScore0[e.v := f] && pq == pq0 + multiset{(f, e.v)}
    else gScore == gScore0 && fScore == fScore0 && pq == pq0
  }

  /** The loop body's computation. */
  method RelaxScores(nodes: map<int, Node>, adj: map<int, seq<Edge>>, target: int, epsilon: real,
                     sqrt: real -> real, u: int, k: int, closed: set<int>,
                     gScore0: map<int, real>, fScore0: map<int, real>, pq0: multiset<(real, int)>)
    returns (gScore: map<int, real>, fScore: map<int, real>, pq: multiset<(real, int)>)
    requires u in adj && u in gScore0 && 0 <= k < |adj[u]|
    ensures RelaxedBy(nodes, adj, target, epsilon, sqrt, u, k, closed, gScore0, fScore0, pq0, gScore, fScore, pq)
  {
    gScore, fScore, pq := gScore0, fScore0, pq0;
    var e := adj[u][k];
    var v := e.v;
    if v !in closed {
      var tentative := gScore[u] + e.length;
      if tentative < Get(gScore, v) {
        gScore := gScore[v := tentative];
        var f := tentative + Weighted(epsilon, Heuristic(nodes, sqrt, v, target));
        fScore := fScore[v := f];
        pq := pq + multiset{(f, v)};
      }
    }
  }

  /** The loop over `g.adj.at(u)`, entries in order. */
  method Relax(nodes: map<int, Node>, adj: map<int, seq<Edge>>, source: int, target: int, epsilon: real,
               sqrt: real -> real, ghost M: real, u: int, closed: set<int>,
               gScore0: map<int, real>, fScore0: map<int, real>, pq0: multiset<(real, int)>,
               ghost wit0: map<int, seq<Hop>>)
    returns (gScore: map<int, real>, fScore: map<int, real>, pq: multiset<(real, int)>, ghost wit: map<int, seq<Hop>>)
    requires Phase1Algorithms.CostsOk(adj, false) && ScoresOk(nodes, adj, source, gScore0, wit0) && QueueOk(nodes, gScore0, fScore0, pq0)
    requires u in adj && u in nodes && u in closed
    requires Pending(nodes, adj, source, target, epsilon, sqrt, M, closed, gScore0, fScore0, pq0, u, 0)
    ensures ScoresOk(nodes, adj, source, gScore, wit) && QueueOk(nodes, gScore, fScore, pq)
    ensures pq0 <= pq && Improves(gScore0, gScore, closed)
    ensures Frontier(nodes, adj, source, target, epsilon, sqrt, M, closed, gScore, fScore, pq)
  {
    gScore, fScore, pq, wit := gScore0, fScore0, pq0, wit0;
    var k := 0;
    while k < |adj[u]|
      invariant 0 <= k <= |adj[u]|
      invariant ScoresOk(nodes, adj, source, gScore, wit) && QueueOk(nodes, gScore, fScore, pq)
      invariant pq0 <= pq && Improves(gScore0, gScore, closed)
      invariant Pending(nodes, adj, source, target, epsilon, sqrt, M, closed, gScore, fScore, pq, u, k)
    {
      ghost var g1, f1, pq1 := gScore, fScore, pq;
      gScore, fScore, pq, wit := RelaxEntry(nodes, adj, source, target, epsilon, sqrt, u, k, closed, gScore, fScore, pq, wit);
      RelaxPending(nodes, adj, source, target, epsilon, sqrt, M, u, k, closed, g1, f1, pq1, gScore, fScore, pq);
      ImprovesTrans(gScore0, g1, gScore, closed);
      k := k + 1;
    }
    PendingDone(nodes, adj, source, target, epsilon, sqrt, M, closed, gScore, fScore, pq, u);
  }

  lemma ImprovesTrans(g0: map<int, real>, g1: map<int, real>, g2: map<int, real>, closed: set<int>)
    requires Improves(g0, g1, closed) && Improves(g1, g2, closed)
    ensures Improves(g0, g2, closed)
  {
  }

  /** The search's opening state: every node at `INF` but the source at
      0, and the source queued with its weighted heuristic. */
  method Start(nodes: map<int, Node>, adj: map<int, seq<Edge>>, source: int, target: int, epsilon: real,
               sqrt: real -> real)
    returns (gScore: map<int, real>, fScore: map<int, real>, pq: multiset<(real, int)>, ghost wit: map<int, seq<Hop>>)
    requires Phase1Algorithms.CostsOk(adj, false) && source in nodes
    ensures ScoresOk(nodes, adj, source, gScore, wit) && QueueOk(nodes, gScore, fScore, pq)
    ensures Opening(nodes, source, target, epsilon, sqrt, gScore, fScore, pq)
  {
    LengthViewFifo(adj);
    gScore := map id | id in nodes :: INF;
    fScore := map id | id in nodes :: INF;
    gScore := gScore[source := 0.0];
    wit := map[source := []];
    var hs := Heuristic(nodes, sqrt, source, target);
    fScore := fScore[source := Weighted(epsilon, hs)];
    pq := multiset{(fScore[source], source)};
  }

  /** Every node at `INF` but the source at 0, and the source queued with
      its weighted heuristic as its f-score. */
  ghost predicate Opening(nodes: map<int, Node>, source: int, target: int, epsilon: real, sqrt: real -> real,
                          gScore: map<int, real>, fScore: map<int, real>, pq: multiset<(real, int)>)
  {
    source in nodes
    && gScore == (map id | id in nodes :: INF)[source := 0.0]
    && fScore == (map id | id in nodes :: INF)[source := Weighted(epsilon, Heuristic(nodes, sqrt, source, target))]
    && pq == multiset{(Weighted(epsilon, Heuristic(nodes, sqrt, source, target)), source)}
  }

  /** The opening state keeps the search invariants, whatever the bound `M`. */
  lemma StartFrontier(nodes: map<int, Node>, adj: map<int, seq<Edge>>, source: int, target: int, epsilon: real,
                      sqrt: real -> real, M: real, gScore: map<int, real>, fScore: map<int, real>, pq: multiset<(real, int)>)
    requires Opening(nodes, source, target, epsilon, sqrt, gScore, fScore, pq)
    ensures Frontier(nodes, adj, source, target, epsilon, sqrt, M, {}, gScore, fScore, pq)
  {
    assert forall v :: v in gScore && gScore[v] < INF ==> v == source;
    assert (0 as real) * M == 0.0;
  }

  /** The closed set holds graph nodes, and the order of expansion lists
      closed nodes without repeats. */
  ghost predicate ExpandedOk(nodes: map<int, Node>, closed: set<int>, expanded: seq<int>)
  {
    closed <= nodes.Keys && |closed| <= |nodes.Keys|
    && Distinct(expanded) && forall i :: 0 <= i < |expanded| ==> expanded[i] in closed
  }

  lemma ExpandStep(nodes: map<int, Node>, closed: set<int>, expanded: seq<int>, u: int)
    requires ExpandedOk(nodes, closed, expanded) && u in nodes && u !in closed
    ensures ExpandedOk(nodes, closed + {u}, expanded + [u])
    ensures |closed + {u}| == |closed| + 1 <= |nodes.Keys|
  {
    assert u !in expanded;
    SubsetCard(closed + {u}, nodes.Keys);
  }

  /** Every reading from `tick0` up to `tick` was within `limit`. */
  ghost predicate ClockOk(clock: nat -> real, tick0: nat, tick: nat, limit: real)
  {
    tick0 <= tick && forall t :: tick0 <= t < tick ==> clock(t) <= limit
  }

  /** One pop of the search loop after the clock check: a stale or closed
      state is dropped, the target ends the search with its g-score, and
      any other node is closed and, when it has an adjacency list and its
      state is current, relaxed. */
  method Expand(nodes: map<int, Node>, adj: map<int, seq<Edge>>, source: int, target: int, epsilon: real,
                sqrt: real -> real, ghost M: real, closed0: set<int>, ghost expanded0: seq<int>,
                gScore0: map<int, real>, fScore0: map<int, real>, pq0: multiset<(real, int)>,
                ghost wit0: map<int, seq<Hop>>)
    returns (found: bool, closed: set<int>, ghost expanded: seq<int>,
             gScore: map<int, real>, fScore: map<int, real>, pq: multiset<(real, int)>, ghost wit: map<int, seq<Hop>>)
    requires Phase1Algorithms.CostsOk(adj, false) && ScoresOk(nodes, adj, source, gScore0, wit0) && QueueOk(nodes, gScore0, fScore0, pq0)
    requires ExpandedOk(nodes, closed0, expanded0) && pq0 != multiset{}
    requires Frontier(nodes, adj, source, target, epsilon, sqrt, M, closed0, gScore0, fScore0, pq0) && target !in closed0
    ensures ScoresOk(nodes, adj, source, gScore, wit) && QueueOk(nodes, gScore, fScore, pq)
    ensures ExpandedOk(nodes, closed, expanded)
    ensures Frontier(nodes, adj, source, target, epsilon, sqrt, M, closed, gScore, fScore, pq)
    ensures found ==> target in gScore && gScore[target] < INF
    ensures target in closed ==> found
    ensures |closed| == |closed0| + 1 || (|closed| == |closed0| && |pq| < |pq0|)
  {
    found := false;
    closed, expanded, gScore, fScore, wit := closed0, expanded0, gScore0, fScore0, wit0;
    var st := PopState(pq0);
    pq := pq0 - multiset{st};
    var u := st.1;
    if u in closed {
      PopFrontier(nodes, adj, source, target, epsilon, sqrt, M, closed0, gScore0, fScore0, pq0, st);
      return;
    }
    CurrentPop(nodes, adj, source, target, epsilon, sqrt, M, closed0, gScore0, fScore0, pq0, st);
    ExpandStep(nodes, closed, expanded, u);
    closed := closed + {u};
    expanded := expanded + [u];
    if u == target {
      CloseFrontier(nodes, adj, source, target, epsilon, sqrt, M, closed0, gScore0, fScore0, pq0, st);
      found := true;
      return;
    }
    if st.0 > fScore[u] || u !in adj {
      CloseFrontier(nodes, adj, source, target, epsilon, sqrt, M, closed0, gScore0, fScore0, pq0, st);
      return;
    }
    OpenPending(nodes, adj, source, target, epsilon, sqrt, M, closed0, gScore0, fScore0, pq0, st);
    gScore, fScore, pq, wit := Relax(nodes, adj, source, target, epsilon, sqrt, M, u, closed, gScore, fScore, pq, wit);
  }

  lemma ClockStep(clock: nat -> real, tick0: nat, tick: nat, limit: real)
    requires ClockOk(clock, tick0, tick, limit) && clock(tick) <= limit
    ensures ClockOk(clock, tick0, tick + 1, limit)
  {
  }

  /** `weighted_astar(g, source, target, epsilon, start_all, budget)`,
      taking clock readings from `tick0` on and returning the next unread
      one. */
  method WeightedAStar(nodes: map<int, Node>, adj: map<int, seq<Edge>>, source: int, target: int, epsilon: real,
                       sqrt: real -> real, clock: nat -> real, tick0: nat, budget: real)
    returns (r: real, tick: nat, ghost w: seq<Hop>, ghost expanded: seq<int>)
    requires Phase1Algorithms.CostsOk(adj, false)
    ensures source !in nodes || target !in nodes ==> r == -1.0
    ensures source in nodes && target in nodes && source == target ==> r == 0.0
    ensures r == -1.0 || (r >= 0.0 && Route(LengthView(adj), nodes.Keys, source, target, w)
                          && Arrive(LengthView(adj), source, w, 0.0) == r)
    ensures Distinct(expanded) && forall i :: 0 <= i < |expanded| ==> expanded[i] in nodes
    ensures tick0 <= tick && (tick == tick0 || ClockOk(clock, tick0, tick - 1, budget * 0.95))
    ensures r != -1.0 ==> ClockOk(clock, tick0, tick, budget * 0.95)
    ensures source in nodes && target in nodes && source != target && r == -1.0 && Short(nodes, adj) ==>
              NoRoute(LengthView(adj), nodes.Keys, source, target) || (tick0 < tick && clock(tick - 1) > budget * 0.95)
  {
    tick, w, expanded := tick0, [], [];
    if source !in nodes || target !in nodes {
      r := -1.0;
    } else if source == target {
      r := 0.0;
    } else {
      var gScore: map<int, real>, fScore: map<int, real>, pq: multiset<(real, int)>;
      ghost var wit: map<int, seq<Hop>>;
      gScore, fScore, pq, wit := Start(nodes, adj, source, target, epsilon, sqrt);
      ghost var M: real := 0.0;
      if Short(nodes, adj) {
        M :| ShortBy(nodes, adj, M);
      }
      r, tick, w, expanded := SearchLoop(nodes, adj, source, target, epsilon, sqrt, clock, tick0, budget * 0.95,
                                         M, gScore, fScore, pq, wit);
    }
  }

  /** A finite g-score of the target is the length of its witnessed route. */
  lemma TargetScore(nodes: map<int, Node>, adj: map<int, seq<Edge>>, source: int, target: int,
                    gScore: map<int, real>, wit: map<int, seq<Hop>>)
    requires Phase1Algorithms.CostsOk(adj, false) && ScoresOk(nodes, adj, source, gScore, wit) && target in nodes
    ensures target in gScore
    ensures gScore[target] < INF ==>
              gScore[target] >= 0.0 && target in wit && Route(LengthView(adj), nodes.Keys, source, target, wit[target])
              && Arrive(LengthView(adj), source, wit[target], 0.0) == gScore[target]
  {
    assert Witnessed(nodes, adj, source, gScore, wit, target);
  }

  /** The `while (!pq.empty())` loop: each round reads the clock and gives up
      with -1 once a reading exceeds `limit`; otherwise it pops and expands,
      ending with the target's g-score when the target is popped. An emptied
      queue ends with the target's g-score, or -1 when it is still `INF`. */
  method SearchLoop(nodes: map<int, Node>, adj: map<int, seq<Edge>>, source: int, target: int, epsilon: real,
                    sqrt: real -> real, clock: nat -> real, tick0: nat, limit: real, ghost M: real,
                    gScore0: map<int, real>, fScore0: map<int, real>, pq0: multiset<(real, int)>,
                    ghost wit0: map<int, seq<Hop>>)
    returns (r: real, tick: nat, ghost w: seq<Hop>, ghost expanded: seq<int>)
    requires Phase1Algorithms.CostsOk(adj, false) && ScoresOk(nodes, adj, source, gScore0, wit0) && QueueOk(nodes, gScore0, fScore0, pq0)
    requires Opening(nodes, source, target, epsilon, sqrt, gScore0, fScore0, pq0) && target in nodes
    ensures r == -1.0 || (r >= 0.0 && Route(LengthView(adj), nodes.Keys, source, target, w)
                          && Arrive(LengthView(adj), source, w, 0.0) == r)
    ensures Distinct(expanded) && forall i :: 0 <= i < |expanded| ==> expanded[i] in nodes
    ensures tick0 <= tick && (tick == tick0 || ClockOk(clock, tick0, tick - 1, limit))
    ensures r != -1.0 ==> ClockOk(clock, tick0, tick, limit)
    ensures r == -1.0 && ShortBy(nodes, adj, M) ==>
              NoRoute(LengthView(adj), nodes.Keys, source, target) || (tick0 < tick && clock(tick - 1) > limit)
  {
    var gScore: map<int, real>, fScore: map<int, real>, pq: multiset<(real, int)>, found: bool;
    ghost var wit: map<int, seq<Hop>>;
    var closed: set<int>;
    found, tick, closed, expanded, gScore, fScore, pq, wit :=
      Rounds(nodes, adj, source, target, epsilon, sqrt, clock, tick0, limit, M, gScore0, fScore0, pq0, wit0);
    TargetScore(nodes, adj, source, target, gScore, wit);
    if pq != multiset{} && !found {
      // the reading at `tick` exceeded the limit
      r, w, tick := -1.0, [], tick + 1;
    } else if gScore[target] < INF {
      r, w := gScore[target], wit[target];
    } else {
      r, w := -1.0, [];
    }
  }

  /** The rounds of the search loop that read the clock within `limit`. */
  method Rounds(nodes: map<int, Node>, adj: map<int, seq<Edge>>, source: int, target: int, epsilon: real,
                sqrt: real -> real, clock: nat -> real, tick0: nat, limit: real, ghost M: real,
                gScore0: map<int, real>, fScore0: map<int, real>, pq0: multiset<(real, int)>,
                ghost wit0: map<int, seq<Hop>>)
    returns (found: bool, tick: nat, closed: set<int>, ghost expanded: seq<int>,
             gScore: map<int, real>, fScore: map<int, real>, pq: multiset<(real, int)>, ghost wit: map<int, seq<Hop>>)
    requires Phase1Algorithms.CostsOk(adj, false) && ScoresOk(nodes, adj, source, gScore0, wit0) && QueueOk(nodes, gScore0, fScore0, pq0)
    requires Opening(nodes, source, target, epsilon, sqrt, gScore0, fScore0, pq0)
    ensures ScoresOk(nodes, adj, source, gScore, wit) && QueueOk(nodes, gScore, fScore, pq)
    ensures ExpandedOk(nodes, closed, expanded) && ClockOk(clock, tick0, tick, limit)
    ensures found ==> target in gScore && gScore[target] < INF
    ensures pq != multiset{} && !found ==> clock(tick) > limit
    ensures pq == multiset{} && !found && ShortBy(nodes, adj, M) ==> NoRoute(LengthView(adj), nodes.Keys, source, target)
  {
    tick, expanded, found, closed := tick0, [], false, {};
    gScore, fScore, pq, wit := gScore0, fScore0, pq0, wit0;
    StartFrontier(nodes, adj, source, target, epsilon, sqrt, M, gScore, fScore, pq);
    while pq != multiset{} && !found && clock(tick) <= limit
      invariant ScoresOk(nodes, adj, source, gScore, wit) && QueueOk(nodes, gScore, fScore, pq)
      invariant ExpandedOk(nodes, closed, expanded) && ClockOk(clock, tick0, tick, limit)
      invariant Frontier(nodes, adj, source, target, epsilon, sqrt, M, closed, gScore, fScore, pq)
      invariant found ==> target in gScore && gScore[target] < INF
      invariant target in closed ==> found
      decreases |nodes.Keys| - |closed|, |pq|
    {
      found, tick, closed, expanded, gScore, fScore, pq, wit :=
        Round(nodes, adj, source, target, epsilon, sqrt, clock, tick0, limit, M, tick, closed, expanded, gScore, fScore, pq, wit);
    }
    if pq == multiset{} && !found && ShortBy(nodes, adj, M) {
      Exhausted(nodes, adj, source, target, epsilon, sqrt, M, closed, gScore, fScore);
    }
  }

  /** One round that read the clock within `limit`: a pop and its expansion. */
  method Round(nodes: map<int, Node>, adj: map<int, seq<Edge>>, source: int, target: int, epsilon: real,
               sqrt: real -> real, clock: nat -> real, tick0: nat, limit: real, ghost M: real, at: nat,
               closed0: set<int>, ghost expanded0: seq<int>,
               gScore0: map<int, real>, fScore0: map<int, real>, pq0: multiset<(real, int)>,
               ghost wit0: map<int, seq<Hop>>)
    returns (found: bool, tick: nat, closed: set<int>, ghost expanded: seq<int>,
             gScore: map<int, real>, fScore: map<int, real>, pq: multiset<(real, int)>, ghost wit: map<int, seq<Hop>>)
    requires Phase1Algorithms.CostsOk(adj, false) && ScoresOk(nodes, adj, source, gScore0, wit0) && QueueOk(nodes, gScore0, fScore0, pq0)
    requires ExpandedOk(nodes, closed0, expanded0) && pq0 != multiset{}
    requires Frontier(nodes, adj, source, target, epsilon, sqrt, M, closed0, gScore0, fScore0, pq0) && target !in closed0
    requires ClockOk(clock, tick0, at, limit) && clock(at) <= limit
    ensures ScoresOk(nodes, adj, source, gScore, wit) && QueueOk(nodes, gScore, fScore, pq)
    ensures ExpandedOk(nodes, closed, expanded) && ClockOk(clock, tick0, tick, limit)
    ensures Frontier(nodes, adj, source, target, epsilon, sqrt, M, closed, gScore, fScore, pq)
    ensures found ==> target in gScore && gScore[target] < INF
    ensures target in closed ==> found
    ensures |closed| == |closed0| + 1 || (|closed| == |closed0| && |pq| < |pq0|)
  {
    ClockStep(clock, tick0, at, limit);
    found, closed, expanded, gScore, fScore, pq, wit :=
      Expand(nodes, adj, source, target, epsilon, sqrt, M, closed0, expanded0, gScore0, fScore0, pq0, wit0);
    tick := at + 1;
  }

  datatype ApproxResult = ApproxResult(source: int, target: int, approxShortestDistance: real)

  /** Query `q`, with both nodes in the graph, is answered, or (under
      bounded lengths) its endpoints differ and either no route joins them
      or the last reading its search took, within `spans[q]`, passed 95% of
      the budget. */
  ghost predicate Missed(nodes: map<int, Node>, adj: map<int, seq<Edge>>, queries: seq<(int, int)>, budget: real,
                         clock: nat -> real, idx: seq<nat>, spans: seq<(nat, nat)>, q: int)
    requires 0 <= q < |queries| && q < |spans|
  {
    queries[q].0 in nodes && queries[q].1 in nodes && q !in idx && Short(nodes, adj) ==>
      queries[q].0 != queries[q].1
      && (NoRoute(LengthView(adj), nodes.Keys, queries[q].0, queries[q].1)
          || (spans[q].0 < spans[q].1 && clock(spans[q].1 - 1) > budget * 0.95))
  }

  /** Appending a query's span, and its index if it was answered, keeps the
      earlier queries' facts. */
  lemma MissedStep(nodes: map<int, Node>, adj: map<int, seq<Edge>>, queries: seq<(int, int)>, budget: real,
                   clock: nat -> real, idx0: seq<nat>, idx: seq<nat>, spans0: seq<(nat, nat)>, spans: seq<(nat, nat)>, q: int)
    requires 0 <= q < |queries| && |spans0| == q && |spans| == q + 1 && spans[..q] == spans0
    requires idx == idx0 || idx == idx0 + [q]
    requires forall p :: 0 <= p < q ==> Missed(nodes, adj, queries, budget, clock, idx0, spans0, p)
    requires Missed(nodes, adj, queries, budget, clock, idx, spans, q)
    ensures forall p :: 0 <= p < q + 1 ==> Missed(nodes, adj, queries, budget, clock, idx, spans, p)
  {
    forall p | 0 <= p < q
      ensures Missed(nodes, adj, queries, budget, clock, idx, spans, p)
    {
      assert spans[p] == spans[..q][p] == spans0[p];
      assert p in idx0 ==> p in idx;
      assert Missed(nodes, adj, queries, budget, clock, idx0, spans0, p);
    }
  }

  /** `approx_batch(g, queries, time_budget_ms, error_pct)`: queries are
      answered in order until a reading before a query exceeds the budget;
      a query with an unknown node, or whose search gives up, is skipped. */
  method ApproxBatch(nodes: map<int, Node>, adj: map<int, seq<Edge>>, queries: seq<(int, int)>, budget: real,
                     errorPct: real, sqrt: real -> real, clock: nat -> real)
    returns (out: seq<ApproxResult>, ghost idx: seq<nat>, ghost stop: nat, ghost stopTick: nat, ghost ws: seq<seq<Hop>>,
             ghost spans: seq<(nat, nat)>)
    requires Phase1Algorithms.CostsOk(adj, false)
    ensures |idx| == |out| == |ws| && stop <= |queries|
    ensures forall j :: 0 <= j < |idx| ==> idx[j] < stop
    ensures forall j, l :: 0 <= j < l < |idx| ==> idx[j] < idx[l]
    ensures forall j :: 0 <= j < |out| ==>
              out[j].source == queries[idx[j]].0 && out[j].target == queries[idx[j]].1
              && out[j].source in nodes && out[j].target in nodes && out[j].approxShortestDistance >= 0.0
              && Route(LengthView(adj), nodes.Keys, out[j].source, out[j].target, ws[j])
              && Arrive(LengthView(adj), out[j].source, ws[j], 0.0) == out[j].approxShortestDistance
    ensures stop < |queries| ==> clock(stopTick) > budget
    ensures |spans| == stop
    ensures forall q :: 0 <= q < stop ==> Missed(nodes, adj, queries, budget, clock, idx, spans, q)
  {
    var epsilon := errorPct / 100.0;
    out, idx, ws, spans := [], [], [], [];
    var tick: nat := 0;
    stop, stopTick := 0, 0;
    var q := 0;
    while q < |queries|
      invariant 0 <= q <= |queries| && stop == q
      invariant |idx| == |out| == |ws|
      invariant forall j :: 0 <= j < |idx| ==> idx[j] < q
      invariant forall j, l :: 0 <= j < l < |idx| ==> idx[j] < idx[l]
      invariant forall j :: 0 <= j < |out| ==>
                  out[j].source == queries[idx[j]].0 && out[j].target == queries[idx[j]].1
                  && out[j].source in nodes && out[j].target in nodes && out[j].approxShortestDistance >= 0.0
                  && Route(LengthView(adj), nodes.Keys, out[j].source, out[j].target, ws[j])
                  && Arrive(LengthView(adj), out[j].source, ws[j], 0.0) == out[j].approxShortestDistance
      invariant |spans| == q
      invariant forall p :: 0 <= p < q ==> Missed(nodes, adj, queries, budget, clock, idx, spans, p)
    {
      var elapsed := clock(tick);
      if elapsed > budget {
        stopTick := tick;
        return;
      }
      tick := tick + 1;
      var s := queries[q].0;
      var t := queries[q].1;
      ghost var idx0, spans0, from := idx, spans, tick;
      if s in nodes && t in nodes {
        var d: real;
        ghost var w: seq<Hop>, ex: seq<int>;
        d, tick, w, ex := WeightedAStar(nodes, adj, s, t, epsilon, sqrt, clock, tick, budget);
        if d >= 0.0 {
          out := out + [ApproxResult(s, t, d)];
          idx := idx + [q];
          ws := ws + [w];
        }
      }
      spans := spans + [(from, tick)];
      MissedStep(nodes, adj, queries, budget, clock, idx0, idx, spans0, spans, q);
      q := q + 1;
      stop := q;
    }
  }
}
