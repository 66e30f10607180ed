// The autograder's reference solver: the constrained Dijkstra over the autograder's
// graph, the nearest-node scan, the k-nearest point-of-interest query, and
// the update and shortest-path branches of `handle_query`.
module GraderSolvers {
  import opened Common
  import opened Walks
  import opened Engine
  import opened GraderEdge
  import G = GraderGraph
  import Sorting

  /** How `dijkstra_shortest_path` sees one adjacency entry: it leads to the
      entry's neighbour, costs the record's length or its `get_cross_time`,
      and is skipped when the neighbour is forbidden, the record disabled or
      its road type forbidden. */
  function EntryArc(s: G.Store, e: (int, int), time: bool, fN: set<int>, fR: set<string>): Arc
    requires e.1 in s.edges
  {
    var r := s.edges[e.1];
    Arc(e.0, if time then PyTimed(r) else Fixed(r.length), e.0 !in fN && !r.disabled && r.roadType !in fR)
  }

  function View(s: G.Store, time: bool, fN: set<int>, fR: set<string>): (arcs: map<int, seq<Arc>>)
    requires G.Resolves(s)
    ensures arcs.Keys == s.adj.Keys
    ensures forall u :: u in s.adj ==> |arcs[u]| == |s.adj[u]|
    ensures forall u, i :: u in s.adj && 0 <= i < |s.adj[u]| ==> arcs[u][i] == EntryArc(s, s.adj[u][i], time, fN, fR)
  {
    map u | u in s.adj :: seq(|s.adj[u]|, i requires 0 <= i < |s.adj[u]| => EntryArc(s, s.adj[u][i], time, fN, fR))
  }

  /** Costs the search can add: non-negative lengths, or in time mode
      records whose crossing time is defined and non-negative. */
  predicate CostsReady(s: G.Store, time: bool)
  {
    if time then G.AllReady(s.edges) else forall id :: id in s.edges ==> s.edges[id].length >= 0.0
  }

  /** Every entry leads to a node of the graph (`dist[v]` is read for it). */
  predicate Known(s: G.Store, nodes: map<int, Node>)
  {
    forall u, k :: u in s.adj && 0 <= k < |s.adj[u]| ==> s.adj[u][k].0 in nodes
  }

  lemma ViewPre(s: G.Store, time: bool, fN: set<int>, fR: set<string>)
    requires G.Resolves(s) && CostsReady(s, time)
    ensures ArcsPre(View(s, time, fN, fR))
  {
    var arcs: map<int, seq<Arc>> := View(s, time, fN, fR);
    forall u: int, i: int | u in arcs && 0 <= i < |arcs[u]|
      ensures CostPre(arcs[u][i].cost)
    {
      assert arcs[u][i] == EntryArc(s, s.adj[u][i], time, fN, fR);
      assert s.adj[u][i].1 in s.edges;
      var id := s.adj[u][i].1;
      if time {
        assert G.AllReady(s.edges);
        assert G.Ready(s.edges[id]);
      } else {
        assert s.edges[id].length >= 0.0;
      }
    }
  }

  /** In distance mode every entry carries its fixed length. */
  lemma DistanceFifo(s: G.Store, fN: set<int>, fR: set<string>)
    requires G.Resolves(s) && CostsReady(s, false)
    ensures ArcsPre(View(s, false, fN, fR)) && ArcsFifo(View(s, false, fN, fR))
  {
    var arcs: map<int, seq<Arc>> := View(s, false, fN, fR);
    forall u: int, i: int | u in arcs && 0 <= i < |arcs[u]|
      ensures arcs[u][i].cost.Fixed? && arcs[u][i].cost.w >= 0.0
    {
      assert arcs[u][i] == EntryArc(s, s.adj[u][i], false, fN, fR);
      var id := s.adj[u][i].1;
      assert s.edges[id].length >= 0.0;
    }
    FixedIsFifo(arcs);
    ViewPre(s, false, fN, fR);
  }

  /** One hop of a walk over the view: an entry of the node reached so far,
      towards the next node, over an enabled record of an allowed road type,
      and the next node is not forbidden. */
  lemma WalkHopAllowed(s: G.Store, time: bool, fN: set<int>, fR: set<string>, src: int, w: seq<Hop>, k: int)
    requires G.Resolves(s) && IsWalk(View(s, time, fN, fR), src, w) && 0 <= k < |w|
    ensures var n := Nodes(View(s, time, fN, fR), src, w);
            var h := w[k];
            h.from == n[k] && h.from in s.adj && 0 <= h.idx < |s.adj[h.from]|
            && s.adj[h.from][h.idx].0 == n[k + 1] && n[k + 1] !in fN
            && !s.edges[s.adj[h.from][h.idx].1].disabled
            && s.edges[s.adj[h.from][h.idx].1].roadType !in fR
  {
    var arcs := View(s, time, fN, fR);
    WalkHop(arcs, src, w, k);
    assert arcs[w[k].from][w[k].idx] == EntryArc(s, s.adj[w[k].from][w[k].idx], time, fN, fR);
  }

  /** A walk from an allowed node never touches a forbidden one. */
  lemma WalkAvoids(s: G.Store, time: bool, fN: set<int>, fR: set<string>, src: int, w: seq<Hop>)
    requires G.Resolves(s) && IsWalk(View(s, time, fN, fR), src, w) && src !in fN
    ensures forall k :: 0 <= k <= |w| ==> Nodes(View(s, time, fN, fR), src, w)[k] !in fN
  {
    forall k | 0 <= k <= |w|
      ensures Nodes(View(s, time, fN, fR), src, w)[k] !in fN
    {
      if k > 0 {
        WalkHopAllowed(s, time, fN, fR, src, w, k - 1);
      }
    }
  }

  /** The search found `path` at `cost`: a walk through the graph's nodes
      that spells the path, arrives at the cost, and under FIFO crossing
      times no walk arrives sooner. */
  ghost predicate Found(s: G.Store, K: set<int>, source: int, target: int, time: bool, fN: set<int>,
                        fR: set<string>, path: seq<int>, cost: real, w: seq<Hop>)
    requires G.Resolves(s)
  {
    var arcs := View(s, time, fN, fR);
    ArcsPre(arcs) && Route(arcs, K, source, target, w) && Nodes(arcs, source, w) == path
    && Arrive(arcs, source, w, 0.0) == cost
    && (ArcsFifo(arcs) ==> Shortest(arcs, K, source, target, cost))
  }

  /** `dijkstra_shortest_path` (heap with stale entries skipped, no early
      stop): `([], inf)` for a forbidden endpoint or an unreachable target,
      `[source]` at 0 when source and target coincide, and otherwise a
      repetition-free path the search found, at its cost. */
  method DijkstraShortestPath(s: G.Store, nodes: map<int, Node>, source: int, target: int, time: bool,
                              fN: set<int>, fR: set<string>)
    returns (path: seq<int>, cost: Ext, ghost w: seq<Hop>)
    requires G.Resolves(s) && CostsReady(s, time) && Known(s, nodes)
    requires target in nodes
    ensures source in fN || target in fN ==> path == [] && cost == Inf
    ensures path == [] <==> cost == Inf
    ensures source !in fN && target !in fN && source == target ==> path == [source] && cost == Fin(0.0)
    ensures path != [] ==> cost.Fin? && Distinct(path) && Found(s, nodes.Keys + {source}, source, target, time, fN, fR, path, cost.val, w)
    ensures path == [] && source !in fN && target !in fN ==> NoRoute(View(s, time, fN, fR), nodes.Keys + {source}, source, target)
  {
    path, cost, w := [], Inf, [];
    if source !in fN && target !in fN {
      path, cost, w := SearchFrom(s, nodes, source, target, time, fN, fR);
    }
  }

  /** The search of `dijkstra_shortest_path` for allowed endpoints and the
      path traced back through `prev`. */
  method SearchFrom(s: G.Store, nodes: map<int, Node>, source: int, target: int, time: bool,
                    fN: set<int>, fR: set<string>)
    returns (path: seq<int>, cost: Ext, ghost w: seq<Hop>)
    requires G.Resolves(s) && CostsReady(s, time) && Known(s, nodes)
    requires target in nodes && source !in fN && target !in fN
    ensures path == [] <==> cost == Inf
    ensures source == target ==> path == [source] && cost == Fin(0.0)
    ensures path != [] ==> cost.Fin? && Distinct(path) && Found(s, nodes.Keys + {source}, source, target, time, fN, fR, path, cost.val, w)
    ensures path == [] ==> NoRoute(View(s, time, fN, fR), nodes.Keys + {source}, source, target)
  {
    var arcs := View(s, time, fN, fR);
    ViewPre(s, time, fN, fR);
    // `dist` holds every node of the graph, and the source it is seeded with
    var K := nodes.Keys + {source};
    var dist: map<int, Ext>, prev: map<int, int>;
    ghost var via: map<int, int>, rank: map<int, nat>;
    dist, prev, via, rank := Search(arcs, K, source, None, Inf, false);
    assert Reached(arcs, K, source, dist, target);
    path, cost, w := [], Inf, [];
    if dist[target] != Inf {
      TracedFound(s, K, source, target, time, fN, fR, dist, prev, via, rank);
      path := TraceByPrev(arcs, K, source, Inf, dist, prev, via, rank, target);
      w := TreeWalk(arcs, K, source, Inf, dist, prev, via, rank, target);
      cost := dist[target];
    }
  }

  /** The path traced back from a reached target is repetition-free and a
      shortest route over the view, `[source]` when it is the source. */
  lemma TracedFound(s: G.Store, K: set<int>, source: int, target: int, time: bool, fN: set<int>, fR: set<string>,
                    dist: map<int, Ext>, prev: map<int, int>, via: map<int, int>, rank: map<int, nat>)
    requires G.Resolves(s) && ArcsPre(View(s, time, fN, fR))
    requires DistOk(K, source, Inf, dist) && TreeOk(View(s, time, fN, fR), K, source, Inf, dist, prev, via, rank)
    requires target in K && Optimal(View(s, time, fN, fR), K, source, dist, target) && dist[target] != Inf
    ensures target == source || target in prev
    ensures Distinct(TreePath(View(s, time, fN, fR), K, source, Inf, dist, prev, via, rank, target))
    ensures Found(s, K, source, target, time, fN, fR,
                  TreePath(View(s, time, fN, fR), K, source, Inf, dist, prev, via, rank, target), dist[target].val,
                  TreeWalk(View(s, time, fN, fR), K, source, Inf, dist, prev, via, rank, target))
    ensures source == target ==>
              TreePath(View(s, time, fN, fR), K, source, Inf, dist, prev, via, rank, target) == [source]
              && dist[target] == Fin(0.0)
  {
    var arcs := View(s, time, fN, fR);
    TreePathSimple(arcs, K, source, Inf, dist, prev, via, rank, target);
    TreePathStep(arcs, K, source, Inf, dist, prev, via, rank, target);
    TracedShortest(s, K, source, target, time, fN, fR, dist, prev, via, rank);
  }

  /** The walk up the tree to a reached target is a shortest route. */
  lemma TracedShortest(s: G.Store, K: set<int>, source: int, target: int, time: bool, fN: set<int>, fR: set<string>,
                       dist: map<int, Ext>, prev: map<int, int>, via: map<int, int>, rank: map<int, nat>)
    requires G.Resolves(s) && ArcsPre(View(s, time, fN, fR))
    requires DistOk(K, source, Inf, dist) && TreeOk(View(s, time, fN, fR), K, source, Inf, dist, prev, via, rank)
    requires target in K && Optimal(View(s, time, fN, fR), K, source, dist, target)
    requires target == source || target in prev
    ensures Found(s, K, source, target, time, fN, fR,
                  TreePath(View(s, time, fN, fR), K, source, Inf, dist, prev, via, rank, target), dist[target].val,
                  TreeWalk(View(s, time, fN, fR), K, source, Inf, dist, prev, via, rank, target))
  {
    var w := TreeWalk(View(s, time, fN, fR), K, source, Inf, dist, prev, via, rank, target);
    FoundBy(s, K, source, target, time, fN, fR, dist, w);
  }

  /** A route to `target` arriving at `dist[target]`, when `dist[target]`
      is optimal, is a found answer. */
  lemma FoundBy(s: G.Store, K: set<int>, source: int, target: int, time: bool, fN: set<int>, fR: set<string>,
                dist: map<int, Ext>, w: seq<Hop>)
    requires G.Resolves(s) && ArcsPre(View(s, time, fN, fR))
    requires target in dist && dist[target].Fin? && Optimal(View(s, time, fN, fR), K, source, dist, target)
    requires Route(View(s, time, fN, fR), K, source, target, w)
    requires Arrive(View(s, time, fN, fR), source, w, 0.0) == dist[target].val
    ensures Found(s, K, source, target, time, fN, fR, Nodes(View(s, time, fN, fR), source, w), dist[target].val, w)
  {
    var arcs := View(s, time, fN, fR);
    if ArcsFifo(arcs) {
      forall w' | Route(arcs, K, source, target, w')
        ensures dist[target].val <= Arrive(arcs, source, w', 0.0)
      {
        assert Le(dist[target], Fin(Arrive(arcs, source, w', 0.0)));
      }
    }
  }

  /** `order` lists the keys of `nodes` once each: the iteration order of
      the dictionary. */
  predicate Enumerates(order: seq<int>, nodes: map<int, Node>)
  {
    Distinct(order) && (forall i :: 0 <= i < |order| ==> order[i] in nodes)
    && forall id :: id in nodes ==> id in order
  }

  /** `find_nearest_node`: nothing on an empty graph, otherwise a node at
      the least Euclidean distance, and on a tie the first in the
      dictionary's iteration order `order` (the scan replaces only on a
      strictly smaller distance). */
  method FindNearestNode(nodes: map<int, Node>, order: seq<int>, lat: real, lon: real) returns (nearest: Option<int>)
    requires Enumerates(order, nodes)
    ensures nearest.None? <==> nodes.Keys == {}
    ensures nearest.Some? ==> nearest.value in nodes
    ensures nearest.Some? ==>
              forall id :: id in nodes ==>
                SqDist(lat, lon, nodes[nearest.value].lat, nodes[nearest.value].lon)
                <= SqDist(lat, lon, nodes[id].lat, nodes[id].lon)
    ensures nearest.Some? ==>
              forall i, j :: 0 <= i < j < |order| && order[j] == nearest.value ==>
                SqDist(lat, lon, nodes[nearest.value].lat, nodes[nearest.value].lon)
                < SqDist(lat, lon, nodes[order[i]].lat, nodes[order[i]].lon)
  {
    var minDist := Inf;
    nearest := None;
    ghost var at := 0;
    for i := 0 to |order|
      invariant nearest.None? <==> i == 0
      invariant nearest.None? ==> minDist == Inf
      invariant nearest.Some? ==>
                  0 <= at < i && order[at] == nearest.value
                  && minDist == Fin(SqDist(lat, lon, nodes[nearest.value].lat, nodes[nearest.value].lon))
                  && (forall j :: 0 <= j < i ==> minDist.val <= SqDist(lat, lon, nodes[order[j]].lat, nodes[order[j]].lon))
                  && (forall j :: 0 <= j < at ==> minDist.val < SqDist(lat, lon, nodes[order[j]].lat, nodes[order[j]].lon))
    {
      var node := nodes[order[i]];
      var dist := SqDist(lat, lon, node.lat, node.lon);
      if Lt(Fin(dist), minDist) {
        minDist := Fin(dist);
        nearest := Some(order[i]);
        at := i;
      }
    }
    if nearest.Some? {
      forall id | id in nodes
        ensures minDist.val <= SqDist(lat, lon, nodes[id].lat, nodes[id].lon)
      {
        var j :| 0 <= j < |order| && order[j] == id;
      }
    } else {
      assert forall id :: id !in nodes.Keys;
    }
  }

  function PoiIds(nodes: map<int, Node>, poi: string): set<int>
  {
    set id | id in nodes && HasPoi(nodes[id], poi)
  }

  /** The Euclidean ranking key of every node (squared: the square root
      keeps every comparison). */
  function EuclidKeys(nodes: map<int, Node>, lat: real, lon: real): (key: map<int, real>)
    ensures key.Keys == nodes.Keys
  {
    map id | id in nodes :: SqDist(lat, lon, nodes[id].lat, nodes[id].lon)
  }

  /** Python's order on `(distance, id)` tuples, strict. */
  predicate Before(key: map<int, real>, a: int, b: int)
    requires a in key && b in key
  {
    key[a] < key[b] || (key[a] == key[b] && a < b)
  }

  /** `ranked` lists every member once, in increasing `(key, id)` order. */
  ghost predicate RankedBy(ranked: seq<int>, members: set<int>, key: map<int, real>)
  {
    members <= key.Keys
    && (forall id :: id in ranked <==> id in members)
    && forall i, j :: 0 <= i < j < |ranked| ==> Before(key, ranked[i], ranked[j])
  }

  /** The first of a ranking comes before every other member. */
  lemma RankedFirst(r: seq<int>, members: set<int>, key: map<int, real>, x: int)
    requires RankedBy(r, members, key) && x in members && |r| > 0
    ensures r[0] in key && x in key && (r[0] == x || Before(key, r[0], x))
  {
    var i :| 0 <= i < |r| && r[i] == x;
    if i > 0 {
      assert Before(key, r[0], r[i]);
    }
  }

  /** The ranking is determined by the members and their keys: the result
      of a k-NN query does not depend on the map's iteration order. */
  lemma {:induction false} RankedUnique(a: seq<int>, b: seq<int>, members: set<int>, key: map<int, real>)
    requires RankedBy(a, members, key) && RankedBy(b, members, key)
    ensures a == b
    decreases |a|
  {
    forall k | 0 <= k < |b|
      ensures b[k] in a
    {
      var x := b[k];
      assert x in b;
    }
    forall k | 0 <= k < |a|
      ensures a[k] in b
    {
      var x := a[k];
      assert x in a;
    }
    if |b| > 0 {
      assert b[0] in a;
    }
    if |a| > 0 {
      assert a[0] in b;
    }
    if |a| > 0 && |b| > 0 {
      RankedFirst(a, members, key, b[0]);
      RankedFirst(b, members, key, a[0]);
      assert b[0] == a[0];
      var m := members - {a[0]};
      forall id
        ensures id in a[1..] <==> id in m
      {
        if id in a[1..] {
          var k :| 1 <= k < |a| && a[k] == id;
          assert Before(key, a[0], a[k]);
        }
        if id in m {
          var k :| 0 <= k < |a| && a[k] == id;
          assert k != 0;
          assert a[1..][k - 1] == id;
        }
      }
      forall id
        ensures id in b[1..] <==> id in m
      {
        if id in b[1..] {
          var k :| 1 <= k < |b| && b[k] == id;
          assert Before(key, b[0], b[k]);
        }
        if id in m {
          var k :| 0 <= k < |b| && b[k] == id;
          assert k != 0;
          assert b[1..][k - 1] == id;
        }
      }
      RankedUnique(a[1..], b[1..], m, key);
      assert a == [a[0]] + a[1..] && b == [b[0]] + b[1..];
    }
  }

  /** The length Python's `lst[:k]` keeps of `n` items: `k` counts from the
      end when negative. */
  function SliceEnd(k: int, n: nat): (m: nat)
    ensures m <= n
  {
    if k >= 0 then (if k < n then k else n) else if n + k > 0 then n + k else 0
  }

  /** A `(distance, id)` list for `members`: one pair per member, its
      distance the member's key. */
  ghost predicate PairsOf(items: seq<(real, int)>, members: set<int>, key: map<int, real>)
  {
    members <= key.Keys && Distinct(Sorting.Ids(items))
    && (forall p :: p in items ==> p.1 in members && p.0 == key[p.1])
    && (forall id :: id in members ==> id in Sorting.Ids(items))
  }

  /** The `(distance, id)` list of a Euclidean query, in the (unspecified)
      order of the set. */
  method CollectPairs(members: set<int>, key: map<int, real>) returns (items: seq<(real, int)>)
    requires members <= key.Keys
    ensures PairsOf(items, members, key)
  {
    items := [];
    var rest := members;
    while rest != {}
      invariant rest <= members
      invariant forall p :: p in items ==> p.1 in members && p.1 !in rest && p.0 == key[p.1]
      invariant Distinct(Sorting.Ids(items))
      invariant forall id :: id in members && id !in rest ==> id in Sorting.Ids(items)
      decreases |rest|
    {
      var id := Pick(rest);
      var p := (key[id], id);
      assert Sorting.Ids(items + [p]) == Sorting.Ids(items) + [id];
      items := items + [p];
      rest := rest - {id};
    }
  }

  /** Sorting a pair list keeps it a pair list for the same members. */
  lemma PairsPerm(items: seq<(real, int)>, sorted: seq<(real, int)>, members: set<int>, key: map<int, real>)
    requires PairsOf(items, members, key) && multiset(items) == multiset(sorted)
    ensures PairsOf(sorted, members, key)
  {
    Sorting.PermDistinctIds(items, sorted);
    forall p | p in sorted
      ensures p.1 in members && p.0 == key[p.1]
    {
      assert p in multiset(items);
    }
  }

  /** A sorted pair list spells the ranking of its members. */
  lemma SortedRanked(sorted: seq<(real, int)>, members: set<int>, key: map<int, real>)
    requires PairsOf(sorted, members, key) && Sorting.SortedBy(sorted, Sorting.ByKeyThenId())
    ensures RankedBy(Sorting.Ids(sorted), members, key)
  {
    var ranked := Sorting.Ids(sorted);
    forall i, j | 0 <= i < j < |ranked|
      ensures ranked[i] in key && ranked[j] in key && Before(key, ranked[i], ranked[j])
    {
      assert sorted[i] in sorted && sorted[j] in sorted;
      assert Sorting.ByKeyThenId()(sorted[i], sorted[j]);
    }
    forall id | id in ranked
      ensures id in members
    {
      var i :| 0 <= i < |ranked| && ranked[i] == id;
      assert sorted[i] in sorted;
    }
  }

  /** `distances.sort()` and `[node_id for _, node_id in distances[:k]]`. */
  method RankPairs(ghost members: set<int>, ghost key: map<int, real>, items: seq<(real, int)>, k: int)
    returns (out: seq<int>, ghost ranked: seq<int>)
    requires PairsOf(items, members, key)
    ensures RankedBy(ranked, members, key) && out == ranked[..SliceEnd(k, |ranked|)]
  {
    Sorting.Preorders();
    var sorted := Sorting.SortBy(items, Sorting.ByKeyThenId());
    PairsPerm(items, sorted, members, key);
    SortedRanked(sorted, members, key);
    ranked := Sorting.Ids(sorted);
    var m := SliceEnd(k, |sorted|);
    out := Sorting.Ids(sorted[..m]);
    assert out == ranked[..m];
  }

  /** The distance from `s` to `t` over any walk through `K`: some walk
      arrives at `c` and none sooner. */
  ghost predicate ShortestDist(arcs: map<int, seq<Arc>>, K: set<int>, s: int, t: int, c: real)
    requires ArcsPre(arcs)
  {
    (exists w :: Route(arcs, K, s, t, w) && Arrive(arcs, s, w, 0.0) == c) && Shortest(arcs, K, s, t, c)
  }

  /** What the network-distance collection knows of the POI nodes already
      tried: each reached one has its exact distance, the others no route. */
  ghost predicate ReachOk(s: G.Store, K: set<int>, start: int, tried: set<int>, dist: map<int, real>)
    requires G.Resolves(s) && ArcsPre(View(s, false, {}, {}))
  {
    dist.Keys <= tried
    && (forall id :: id in dist ==> ShortestDist(View(s, false, {}, {}), K, start, id, dist[id]))
    && (forall id :: id in tried && id !in dist ==> NoRoute(View(s, false, {}, {}), K, start, id))
  }

  /** A distance-mode search result is the exact network distance. */
  lemma FoundShortest(s: G.Store, K: set<int>, start: int, id: int, path: seq<int>, c: real, w: seq<Hop>)
    requires G.Resolves(s) && CostsReady(s, false)
    requires Found(s, K, start, id, false, {}, {}, path, c, w)
    ensures ArcsPre(View(s, false, {}, {})) && ShortestDist(View(s, false, {}, {}), K, start, id, c)
  {
    DistanceFifo(s, {}, {});
  }

  /** One `dijkstra_shortest_path(graph, nearest_node, node_id, "distance")`
      of the network-distance k-NN query, its cost only. */
  method DistanceTo(s: G.Store, nodes: map<int, Node>, start: int, id: int) returns (c: Ext)
    requires G.Resolves(s) && CostsReady(s, false) && Known(s, nodes) && start in nodes && id in nodes
    ensures ArcsPre(View(s, false, {}, {}))
    ensures c.Fin? ==> ShortestDist(View(s, false, {}, {}), nodes.Keys, start, id, c.val)
    ensures c == Inf ==> NoRoute(View(s, false, {}, {}), nodes.Keys, start, id)
  {
    ViewPre(s, false, {}, {});
    assert nodes.Keys + {start} == nodes.Keys;
    var path;
    ghost var w;
    path, c, w := DijkstraShortestPath(s, nodes, start, id, false, {}, {});
    if c.Fin? {
      FoundShortest(s, nodes.Keys, start, id, path, c.val, w);
    }
  }

  /** One more POI node tried. */
  lemma ReachStep(s: G.Store, K: set<int>, start: int, tried: set<int>, dist: map<int, real>, id: int, c: Ext)
    requires G.Resolves(s) && ArcsPre(View(s, false, {}, {})) && ReachOk(s, K, start, tried, dist)
    requires id !in dist
    requires c.Fin? ==> ShortestDist(View(s, false, {}, {}), K, start, id, c.val)
    requires c == Inf ==> NoRoute(View(s, false, {}, {}), K, start, id)
    ensures ReachOk(s, K, start, tried + {id}, if c.Fin? then dist[id := c.val] else dist)
  {
  }

  /** A new member joins a pair list with its key. */
  lemma PairsAdd(items: seq<(real, int)>, dist: map<int, real>, id: int, c: real)
    requires PairsOf(items, dist.Keys, dist) && id !in dist
    ensures PairsOf(items + [(c, id)], dist[id := c].Keys, dist[id := c])
  {
    assert Sorting.Ids(items + [(c, id)]) == Sorting.Ids(items) + [id];
  }

  /** The POI nodes reachable from `start` and their network distances, one
      `dijkstra_shortest_path` in distance mode per node. */
  method CollectReached(s: G.Store, nodes: map<int, Node>, start: int, pois: set<int>)
    returns (items: seq<(real, int)>, ghost dist: map<int, real>)
    requires G.Resolves(s) && CostsReady(s, false) && Known(s, nodes) && start in nodes && pois <= nodes.Keys
    ensures ArcsPre(View(s, false, {}, {}))
    ensures ReachOk(s, nodes.Keys, start, pois, dist)
    ensures PairsOf(items, dist.Keys, dist)
  {
    ViewPre(s, false, {}, {});
    items, dist := [], map[];
    var rest := pois;
    while rest != {}
      invariant rest <= pois
      invariant ReachOk(s, nodes.Keys, start, pois - rest, dist)
      invariant PairsOf(items, dist.Keys, dist)
      decreases |rest|
    {
      var id := Pick(rest);
      var cost := DistanceTo(s, nodes, start, id);
      ReachStep(s, nodes.Keys, start, pois - rest, dist, id, cost);
      if cost.Fin? {
        PairsAdd(items, dist, id, cost.val);
        items := items + [(cost.val, id)];
        dist := dist[id := cost.val];
      }
      assert pois - (rest - {id}) == (pois - rest) + {id};
      rest := rest - {id};
    }
  }

  /** `knn_query`: nothing when no node carries the POI or the metric is
      unknown; by Euclidean distance, the first `k` POI nodes in `(distance,
      id)` order; by network distance from the node nearest the query
      point (the first in the dictionary order `order` on a tie), the first
      `k` of the POI nodes it reaches, in the same order. */
  method KnnQuery(s: G.Store, nodes: map<int, Node>, order: seq<int>, poi: string, lat: real, lon: real, k: int,
                  metric: string)
    returns (out: seq<int>, ghost ranked: seq<int>, ghost key: map<int, real>, ghost start: int)
    requires G.Resolves(s) && Enumerates(order, nodes)
    requires metric == "shortest_path" ==> CostsReady(s, false) && Known(s, nodes)
    ensures PoiIds(nodes, poi) == {} ==> out == []
    ensures metric != "euclidean" && metric != "shortest_path" ==> out == []
    ensures PoiIds(nodes, poi) != {} && metric == "euclidean" ==>
              key == EuclidKeys(nodes, lat, lon) && RankedBy(ranked, PoiIds(nodes, poi), key)
              && out == ranked[..SliceEnd(k, |ranked|)]
    ensures PoiIds(nodes, poi) != {} && metric == "shortest_path" ==>
              start in nodes
              && (forall id :: id in nodes ==>
                    SqDist(lat, lon, nodes[start].lat, nodes[start].lon) <= SqDist(lat, lon, nodes[id].lat, nodes[id].lon))
              && (forall i, j :: 0 <= i < j < |order| && order[j] == start ==>
                    SqDist(lat, lon, nodes[start].lat, nodes[start].lon) < SqDist(lat, lon, nodes[order[i]].lat, nodes[order[i]].lon))
              && ArcsPre(View(s, false, {}, {}))
              && ReachOk(s, nodes.Keys, start, PoiIds(nodes, poi), key)
              && RankedBy(ranked, key.Keys, key) && out == ranked[..SliceEnd(k, |ranked|)]
  {
    ranked, key, start := [], map[], 0;
    var pois := PoiIds(nodes, poi);
    if pois == {} {
      return [], ranked, key, start;
    }
    if metric == "euclidean" {
      var keys := EuclidKeys(nodes, lat, lon);
      key := keys;
      var items := CollectPairs(pois, keys);
      out, ranked := RankPairs(pois, key, items, k);
    } else if metric == "shortest_path" {
      var nearest := FindNearestNode(nodes, order, lat, lon);
      var from := nearest.value;
      start := from;
      var items;
      items, key := CollectReached(s, nodes, from, pois);
      out, ranked := RankPairs(key.Keys, key, items, k);
    } else {
      out := [];
    }
  }

  /** The solver's `remove_edge`: done exactly when the id is known and not
      yet disabled, and only then is the record disabled. */
  function SolverRemove(s: G.Store, id: int): (r: (bool, G.Store))
    ensures r.0 <==> id in s.edges && !s.edges[id].disabled
    ensures r.1.adj == s.adj && r.1.edges.Keys == s.edges.Keys
    ensures forall k :: k in s.edges && k != id ==> r.1.edges[k] == s.edges[k]
    ensures id in s.edges ==> r.1.edges[id].disabled
  {
    if id in s.edges && !s.edges[id].disabled then (true, G.Disable(s, id)) else (false, s)
  }

  /** The solver's `modify_edge`: an empty patch is refused untouched; a
      known id is patched and enabled. */
  function SolverModify(s: G.Store, id: int, p: Patch): (r: (bool, G.Store))
    ensures r.0 <==> !EmptyPatch(p) && id in s.edges
    ensures r.1.adj == s.adj && r.1.edges.Keys == s.edges.Keys
    ensures forall k :: k in s.edges && k != id ==> r.1.edges[k] == s.edges[k]
    ensures r.0 ==> r.1.edges[id] == ApplyPatch(s.edges[id], p).(disabled := false)
    ensures !r.0 ==> r.1 == s
  {
    if EmptyPatch(p) then (false, s) else (id in s.edges, G.Modify(s, id, p))
  }

  /** The `remove_edge` branch of `handle_query` on the graph object. */
  method HandleRemove(g: G.PyGraph, edgeId: int) returns (done: bool)
    modifies g
    requires g.Valid()
    ensures (done, g.State()) == SolverRemove(old(g.State()), edgeId)
    ensures g.Valid() && g.nodes == old(g.nodes)
  {
    if edgeId in g.edges {
      var e := g.edges[edgeId];
      if e.disabled {
        done := false;
      } else {
        g.edges := g.edges[edgeId := e.(disabled := true)];
        done := true;
      }
    } else {
      done := false;
    }
  }

  /** The `modify_edge` branch of `handle_query` on the graph object. */
  method HandleModify(g: G.PyGraph, edgeId: int, patch: Patch) returns (done: bool)
    modifies g
    requires g.Valid()
    ensures (done, g.State()) == SolverModify(old(g.State()), edgeId, patch)
    ensures g.Valid() && g.nodes == old(g.nodes)
  {
    if EmptyPatch(patch) {
      return false;
    }
    if edgeId in g.edges {
      g.edges := g.edges[edgeId := ApplyPatch(g.edges[edgeId], patch).(disabled := false)];
      done := true;
    } else {
      done := false;
    }
  }

  /** The autograder replays a `remove_edge` answer with `remove_edge_uv`, which
      succeeds for every known id: it accepts the solver's `done` exactly
      when the id is not known and already disabled, and both end with the
      same graph. */
  lemma RemoveAgreement(s: G.Store, id: int, o: G.Output, x: G.Expected)
    requires G.Resolves(s) && o.done == SolverRemove(s, id).0
    ensures G.Step(s, G.RemoveQ(id), o, x).0 <==> !(id in s.edges && s.edges[id].disabled)
    ensures G.Step(s, G.RemoveQ(id), o, x).1 == SolverRemove(s, id).1
  {
    if id in s.edges && s.edges[id].disabled {
      assert s.edges[id].(disabled := true) == s.edges[id];
      assert s.edges[id := s.edges[id]] == s.edges;
    }
  }

  /** An empty patch changes no field. */
  lemma EmptyPatchKeeps(e: PyEdge, p: Patch)
    requires EmptyPatch(p)
    ensures ApplyPatch(e, p) == e
  {
  }

  /** The autograder replays a `modify_edge` answer with `modify_edge`, which
      does not refuse an empty patch: it accepts the solver's `done` unless
      the patch is empty and the id known, and the two graphs differ
      exactly when, on top of that, the record was disabled (the autograder
      enables it). */
  lemma ModifyAgreement(s: G.Store, id: int, p: Patch, o: G.Output, x: G.Expected)
    requires G.Resolves(s) && o.done == SolverModify(s, id, p).0
    ensures G.Step(s, G.ModifyQ(id, p), o, x).0 <==> !(EmptyPatch(p) && id in s.edges)
    ensures G.Step(s, G.ModifyQ(id, p), o, x).1 == SolverModify(s, id, p).1
            <==> !(EmptyPatch(p) && id in s.edges && s.edges[id].disabled)
  {
    if EmptyPatch(p) && id in s.edges {
      var e := s.edges[id];
      EmptyPatchKeeps(e, p);
      var after := G.Modify(s, id, p);
      assert after.edges[id] == e.(disabled := false);
      if !e.disabled {
        assert e.(disabled := false) == e;
        assert s.edges[id := e] == s.edges;
      } else {
        assert after.edges[id] != s.edges[id];
      }
    }
  }

  /** The `shortest_path` branch of `handle_query`: `possible` is
      `bool(path)`; the total (under the combined key) and the path are
      written only when there is a path. */
  method HandleShortestPath(s: G.Store, nodes: map<int, Node>, q: G.SpQuery)
    returns (o: G.SpOut, ghost w: seq<Hop>)
    requires G.Resolves(s) && CostsReady(s, q.timeMode) && Known(s, nodes)
    requires q.target in nodes
    ensures o.possible.Some? && o.minimumTime.None? && o.minimumDistance.None?
    ensures o.possible.value <==> o.path != []
    ensures o.possible.value <==> o.combined.Some?
    ensures !o.possible.value && q.source !in q.forbiddenNodes && q.target !in q.forbiddenNodes ==>
              NoRoute(View(s, q.timeMode, q.forbiddenNodes, q.forbiddenRoads), nodes.Keys + {q.source}, q.source, q.target)
    ensures o.possible.value ==> Distinct(o.path)
    ensures o.possible.value ==>
              Found(s, nodes.Keys + {q.source}, q.source, q.target, q.timeMode, q.forbiddenNodes, q.forbiddenRoads,
                    o.path, o.combined.value, w)
  {
    var path, cost;
    path, cost, w := DijkstraShortestPath(s, nodes, q.source, q.target, q.timeMode, q.forbiddenNodes, q.forbiddenRoads);
    if path != [] {
      o := G.SpOut(Some(true), path, Some(cost.val), None, None);
    } else {
      o := G.SpOut(Some(false), [], None, None, None);
    }
  }

  /** No node lists two entries towards the same neighbour (no parallel
      roads). */
  predicate SingleEntries(s: G.Store)
  {
    forall u, i, j :: u in s.adj && 0 <= i < j < |s.adj[u]| ==> s.adj[u][i].0 != s.adj[u][j].0
  }

  /** Without parallel entries the autograder's first usable entry towards `v`
      is the only one. */
  lemma FirstEnabledIs(edges: map<int, PyEdge>, es: seq<(int, int)>, v: int, k: int)
    requires forall j :: 0 <= j < |es| ==> es[j].1 in edges
    requires forall i, j :: 0 <= i < j < |es| ==> es[i].0 != es[j].0
    requires 0 <= k < |es| && G.Usable(edges, es[k], v)
    ensures G.FirstEnabled(edges, es, v) == Some(es[k].1)
  {
    var r := G.FirstEnabled(edges, es, v);
    var m :| 0 <= m < |es| && es[m].1 == r.value && G.Usable(edges, es[m], v)
             && forall j :: 0 <= j < m ==> !G.Usable(edges, es[j], v);
    assert es[m].0 == es[k].0;
  }

  /** The autograder's total loop reads only the path's first `n + 1` nodes. */
  lemma {:induction false} PathCostPrefix(s: G.Store, vs: seq<int>, vs2: seq<int>, fR: set<string>, time: bool, n: nat)
    requires G.Resolves(s) && n < |vs| && n < |vs2| && forall i :: 0 <= i <= n ==> vs[i] == vs2[i]
    requires time ==> G.AllReady(s.edges)
    ensures G.PathCost(s, vs, fR, time, n) == G.PathCost(s, vs2, fR, time, n)
  {
    if n > 0 {
      PathCostPrefix(s, vs, vs2, fR, time, n - 1);
      assert vs[n - 1] == vs2[n - 1] && vs[n] == vs2[n];
    }
  }

  /** One more hop of the autograder's total loop, over the entry `id`. */
  lemma PathCostStep(s: G.Store, vs: seq<int>, fR: set<string>, time: bool, n: nat, t: real, id: int)
    requires G.Resolves(s) && 0 < n < |vs| && (time ==> G.AllReady(s.edges))
    requires G.PathCost(s, vs, fR, time, n - 1) == Some(t)
    requires G.FirstEnabled(s.edges, G.AdjOf(s.adj, vs[n - 1]), vs[n]) == Some(id)
    requires s.edges[id].roadType !in fR && (time ==> t >= 0.0)
    ensures G.PathCost(s, vs, fR, time, n) == Some(t + G.HopCost(s.edges[id], t, time))
  {
  }

  /** One hop of a walk over the view, seen by the autograder: without parallel
      entries the autograder's first usable entry is the one the walk crossed,
      and it charges what the walk charged. */
  lemma HopAgrees(s: G.Store, time: bool, fN: set<int>, fR: set<string>, src: int, w: seq<Hop>, k: int, t: real)
    requires G.Resolves(s) && CostsReady(s, time) && SingleEntries(s)
    requires IsWalk(View(s, time, fN, fR), src, w) && 0 <= k < |w| && t >= 0.0
    ensures ArcsPre(View(s, time, fN, fR))
    ensures w[k].from in s.adj && 0 <= w[k].idx < |s.adj[w[k].from]|
    ensures var vs := Nodes(View(s, time, fN, fR), src, w);
            var h := w[k];
            G.FirstEnabled(s.edges, G.AdjOf(s.adj, vs[k]), vs[k + 1]) == Some(s.adj[h.from][h.idx].1)
            && vs[k + 1] !in fN && s.edges[s.adj[h.from][h.idx].1].roadType !in fR
            && (time ==> G.AllReady(s.edges))
            && G.HopCost(s.edges[s.adj[h.from][h.idx].1], t, time)
               == CostAt(View(s, time, fN, fR)[h.from][h.idx].cost, t)
  {
    ViewPre(s, time, fN, fR);
    WalkHopAllowed(s, time, fN, fR, src, w, k);
    var h := w[k];
    var es := s.adj[h.from];
    assert forall j :: 0 <= j < |es| ==> es[j].1 in s.edges;
    var vs := Nodes(View(s, time, fN, fR), src, w);
    FirstEnabledIs(s.edges, es, vs[k + 1], h.idx);
    assert View(s, time, fN, fR)[h.from][h.idx] == EntryArc(s, es[h.idx], time, fN, fR);
  }

  /** The autograder's total over all but the last node of a walk is the total
      over the walk without its last hop. */
  lemma WalkCostPrefix(s: G.Store, time: bool, fN: set<int>, fR: set<string>, src: int, w: seq<Hop>)
    requires G.Resolves(s) && |w| > 0 && (time ==> G.AllReady(s.edges))
    ensures G.PathCost(s, Nodes(View(s, time, fN, fR), src, w), fR, time, |w| - 1)
            == G.PathCost(s, Nodes(View(s, time, fN, fR), src, w[..|w| - 1]), fR, time, |w| - 1)
  {
    var arcs := View(s, time, fN, fR);
    var vs := Nodes(arcs, src, w);
    var ps := Nodes(arcs, src, w[..|w| - 1]);
    assert vs == ps + [End(arcs, src, w)];
    PathCostPrefix(s, vs, ps, fR, time, |w| - 1);
  }

  /** The arrival of a walk is that of its prefix plus the last crossing. */
  lemma ArriveLast(arcs: map<int, seq<Arc>>, src: int, w: seq<Hop>)
    requires ArcsPre(arcs) && IsWalk(arcs, src, w) && |w| > 0
    ensures var h := w[|w| - 1];
            var t := Arrive(arcs, src, w[..|w| - 1], 0.0);
            HopOk(arcs, h) && Arrive(arcs, src, w, 0.0) == t + CostAt(arcs[h.from][h.idx].cost, t)
  {
  }

  /** The last hop of a walk, seen by the autograder: the entry it crosses is
      the autograder's first usable one and the walk's arrival grows by the
      autograder's cost of that entry. */
  lemma LastHopCost(s: G.Store, time: bool, fN: set<int>, fR: set<string>, src: int, w: seq<Hop>, t: real)
    requires G.Resolves(s) && CostsReady(s, time) && SingleEntries(s)
    requires IsWalk(View(s, time, fN, fR), src, w) && |w| > 0
    requires ArcsPre(View(s, time, fN, fR)) && (time ==> G.AllReady(s.edges))
    requires t == Arrive(View(s, time, fN, fR), src, w[..|w| - 1], 0.0)
    ensures w[|w| - 1].from in s.adj && 0 <= w[|w| - 1].idx < |s.adj[w[|w| - 1].from]|
    ensures var vs := Nodes(View(s, time, fN, fR), src, w);
            var id := s.adj[w[|w| - 1].from][w[|w| - 1].idx].1;
            id in s.edges
            && G.FirstEnabled(s.edges, G.AdjOf(s.adj, vs[|w| - 1]), vs[|w|]) == Some(id)
            && s.edges[id].roadType !in fR && (time ==> t >= 0.0)
            && Arrive(View(s, time, fN, fR), src, w, 0.0) == t + G.HopCost(s.edges[id], t, time)
  {
    ArriveLast(View(s, time, fN, fR), src, w);
    HopAgrees(s, time, fN, fR, src, w, |w| - 1, t);
  }

  /** The autograder's total and the walk's arrival grow by the same last hop. */
  lemma WalkCostStep(s: G.Store, time: bool, fN: set<int>, fR: set<string>, src: int, w: seq<Hop>, t: real)
    requires G.Resolves(s) && CostsReady(s, time) && SingleEntries(s)
    requires IsWalk(View(s, time, fN, fR), src, w) && |w| > 0
    requires ArcsPre(View(s, time, fN, fR)) && (time ==> G.AllReady(s.edges))
    requires t == Arrive(View(s, time, fN, fR), src, w[..|w| - 1], 0.0)
    requires G.PathCost(s, Nodes(View(s, time, fN, fR), src, w), fR, time, |w| - 1) == Some(t)
    ensures G.PathCost(s, Nodes(View(s, time, fN, fR), src, w), fR, time, |w|)
            == Some(Arrive(View(s, time, fN, fR), src, w, 0.0))
  {
    LastHopCost(s, time, fN, fR, src, w, t);
    var h := w[|w| - 1];
    StepChain(s, Nodes(View(s, time, fN, fR), src, w), fR, time, |w|, t, s.adj[h.from][h.idx].1,
              Arrive(View(s, time, fN, fR), src, w, 0.0));
  }

  /** `PathCostStep`, with the extended total named. */
  lemma StepChain(s: G.Store, vs: seq<int>, fR: set<string>, time: bool, n: nat, t: real, id: int, a: real)
    requires G.Resolves(s) && 0 < n < |vs| && (time ==> G.AllReady(s.edges))
    requires G.PathCost(s, vs, fR, time, n - 1) == Some(t)
    requires G.FirstEnabled(s.edges, G.AdjOf(s.adj, vs[n - 1]), vs[n]) == Some(id)
    requires s.edges[id].roadType !in fR && (time ==> t >= 0.0)
    requires a == t + G.HopCost(s.edges[id], t, time)
    ensures G.PathCost(s, vs, fR, time, n) == Some(a)
  {
    PathCostStep(s, vs, fR, time, n, t, id);
  }

  /** Without parallel entries the autograder's total over the nodes of a walk
      is the walk's arrival. */
  lemma {:induction false} WalkCostAgrees(s: G.Store, time: bool, fN: set<int>, fR: set<string>, src: int, w: seq<Hop>)
    requires G.Resolves(s) && CostsReady(s, time) && SingleEntries(s)
    requires IsWalk(View(s, time, fN, fR), src, w)
    ensures ArcsPre(View(s, time, fN, fR)) && (time ==> G.AllReady(s.edges))
    ensures G.PathCost(s, Nodes(View(s, time, fN, fR), src, w), fR, time, |w|)
            == Some(Arrive(View(s, time, fN, fR), src, w, 0.0))
    decreases |w|, 1
  {
    ViewPre(s, time, fN, fR);
    if |w| > 0 {
      WalkCostGrow(s, time, fN, fR, src, w);
    }
  }

  /** The agreement for a non-empty walk, from the agreement for the walk
      without its last hop. */
  lemma {:induction false} WalkCostGrow(s: G.Store, time: bool, fN: set<int>, fR: set<string>, src: int, w: seq<Hop>)
    requires G.Resolves(s) && CostsReady(s, time) && SingleEntries(s)
    requires IsWalk(View(s, time, fN, fR), src, w) && |w| > 0
    requires ArcsPre(View(s, time, fN, fR)) && (time ==> G.AllReady(s.edges))
    ensures G.PathCost(s, Nodes(View(s, time, fN, fR), src, w), fR, time, |w|)
            == Some(Arrive(View(s, time, fN, fR), src, w, 0.0))
    decreases |w|, 0
  {
    WalkCostAgrees(s, time, fN, fR, src, w[..|w| - 1]);
    WalkCostPrefix(s, time, fN, fR, src, w);
    WalkCostStep(s, time, fN, fR, src, w, Arrive(View(s, time, fN, fR), src, w[..|w| - 1], 0.0));
  }

  /** Without parallel entries the autograder's `validate_path` accepts the
      nodes of a walk over the view from an allowed source. */
  lemma WalkValid(s: G.Store, time: bool, fN: set<int>, fR: set<string>, src: int, w: seq<Hop>)
    requires G.Resolves(s) && CostsReady(s, time) && SingleEntries(s)
    requires IsWalk(View(s, time, fN, fR), src, w) && |w| >= 1 && src !in fN
    ensures G.ValidPath(s, Nodes(View(s, time, fN, fR), src, w), fN, fR, src, End(View(s, time, fN, fR), src, w))
  {
    var vs := Nodes(View(s, time, fN, fR), src, w);
    forall k | 0 <= k < |vs| - 1
      ensures G.HopOk(s, vs[k], vs[k + 1], fN, fR)
    {
      HopAgrees(s, time, fN, fR, src, w, k, 0.0);
    }
    HopAgrees(s, time, fN, fR, src, w, |w| - 1, 0.0);
  }

  /** The solver's own answer passes the autograder's check against itself as
      expected output, when the network has no parallel roads and the path
      has a hop: the path validates and the reported total is the autograder's
      recomputed one. */
  lemma SelfAccepted(s: G.Store, K: set<int>, q: G.SpQuery, path: seq<int>, c: real, w: seq<Hop>)
    requires G.Resolves(s) && CostsReady(s, q.timeMode) && SingleEntries(s)
    requires Found(s, K, q.source, q.target, q.timeMode, q.forbiddenNodes, q.forbiddenRoads, path, c, w)
    requires |path| >= 2 && q.source !in q.forbiddenNodes
    ensures q.timeMode ==> G.AllReady(s.edges)
    ensures G.Accepts(s, q, G.SpOut(Some(true), path, Some(c), None, None), G.SpExpected(true, c))
  {
    var arcs := View(s, q.timeMode, q.forbiddenNodes, q.forbiddenRoads);
    assert IsWalk(arcs, q.source, w) && End(arcs, q.source, w) == q.target;
    WalkAccepted(s, q, Nodes(arcs, q.source, w), Arrive(arcs, q.source, w, 0.0), w);
  }

  /** The nodes of a walk over the view from an allowed source, at the
      walk's arrival, are an answer the autograder accepts for the walk's end. */
  lemma WalkAccepted(s: G.Store, q: G.SpQuery, path: seq<int>, c: real, w: seq<Hop>)
    requires G.Resolves(s) && CostsReady(s, q.timeMode) && SingleEntries(s)
    requires IsWalk(View(s, q.timeMode, q.forbiddenNodes, q.forbiddenRoads), q.source, w)
    requires End(View(s, q.timeMode, q.forbiddenNodes, q.forbiddenRoads), q.source, w) == q.target
    requires path == Nodes(View(s, q.timeMode, q.forbiddenNodes, q.forbiddenRoads), q.source, w)
    requires ArcsPre(View(s, q.timeMode, q.forbiddenNodes, q.forbiddenRoads))
    requires c == Arrive(View(s, q.timeMode, q.forbiddenNodes, q.forbiddenRoads), q.source, w, 0.0)
    requires |w| >= 1 && q.source !in q.forbiddenNodes
    ensures q.timeMode ==> G.AllReady(s.edges)
    ensures G.Accepts(s, q, G.SpOut(Some(true), path, Some(c), None, None), G.SpExpected(true, c))
  {
    WalkValid(s, q.timeMode, q.forbiddenNodes, q.forbiddenRoads, q.source, w);
    WalkCostAgrees(s, q.timeMode, q.forbiddenNodes, q.forbiddenRoads, q.source, w);
    G.AcceptsExact(s, q, path, c);
  }

  /** The answer for a source that is its own target, `[source]` at 0, is
      one the autograder refuses: `validate_path` wants two vertices. */
  lemma TrivialRejected(s: G.Store, q: G.SpQuery, x: G.SpExpected)
    requires G.Resolves(s) && (q.timeMode ==> G.AllReady(s.edges))
    ensures !G.Accepts(s, q, G.SpOut(Some(true), [q.source], Some(0.0), None, None), x)
  {
  }

  /** An impossible answer passes exactly against an impossible
      expectation. */
  lemma SelfImpossible(s: G.Store, q: G.SpQuery)
    requires G.Resolves(s) && (q.timeMode ==> G.AllReady(s.edges))
    ensures G.Accepts(s, q, G.SpOut(Some(false), [], None, None, None), G.SpExpected(false, 0.0))
  {
  }
}
