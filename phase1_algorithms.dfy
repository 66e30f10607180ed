// Phase-1 queries over the graph store: the constrained single-pair
// Dijkstra (distance or time-of-day mode, forbidden nodes and road types)
// and the two k-nearest point-of-interest queries.
module Phase1Algorithms {
  import opened Common
  import opened CppCost
  import opened Walks
  import opened Engine
  import opened Sorting

  datatype SPResult = SPResult(possible: bool, cost: real, path: seq<int>)

  /** The result object's initial value, returned on every refusal. */
  const Impossible: SPResult := SPResult(false, 0.0, [])

  /** How the constrained search sees one adjacency entry: it leads to
      `e.v`, costs its length or its time-of-day crossing time, and is
      skipped when its road type or its target is forbidden. */
  function EntryArc(e: Edge, time: bool, forbidN: set<int>, forbidR: set<string>): Arc
  {
    Arc(e.v, if time then CppTimed(e) else Fixed(e.length), e.roadType !in forbidR && e.v !in forbidN)
  }

  function View(adj: map<int, seq<Edge>>, time: bool, forbidN: set<int>, forbidR: set<string>)
    : (arcs: map<int, seq<Arc>>)
    ensures arcs.Keys == adj.Keys
    ensures forall u :: u in adj ==> |arcs[u]| == |adj[u]|
    ensures forall u, i :: u in adj && 0 <= i < |adj[u]| ==> arcs[u][i] == EntryArc(adj[u][i], time, forbidN, forbidR)
  {
    map u | u in adj :: seq(|adj[u]|, i requires 0 <= i < |adj[u]| => EntryArc(adj[u][i], time, forbidN, forbidR))
  }

  /** Crossing costs the search can add: non-negative lengths, or in time
      mode a usable speed profile and a non-negative average time. */
  predicate CostsOk(adj: map<int, seq<Edge>>, time: bool)
  {
    forall u, i :: u in adj && 0 <= i < |adj[u]| ==>
      if time then ProfileOk(adj[u][i]) && adj[u][i].averageTime >= 0.0 else adj[u][i].length >= 0.0
  }

  lemma ViewPre(adj: map<int, seq<Edge>>, time: bool, forbidN: set<int>, forbidR: set<string>)
    requires CostsOk(adj, time)
    ensures ArcsPre(View(adj, time, forbidN, forbidR))
  {
    var arcs: map<int, seq<Arc>> := View(adj, time, forbidN, forbidR);
    forall u: int, i: int | u in arcs && 0 <= i < |arcs[u]|
      ensures CostPre(arcs[u][i].cost)
    {
      assert arcs[u][i] == EntryArc(adj[u][i], time, forbidN, forbidR);
    }
  }

  /** Distance mode adds fixed lengths, so arriving later never helps. */
  lemma DistanceFifo(adj: map<int, seq<Edge>>, forbidN: set<int>, forbidR: set<string>)
    requires CostsOk(adj, false)
    ensures ArcsPre(View(adj, false, forbidN, forbidR)) && ArcsFifo(View(adj, false, forbidN, forbidR))
  {
    var arcs: map<int, seq<Arc>> := View(adj, false, forbidN, forbidR);
    forall u: int, i: int | u in arcs && 0 <= i < |arcs[u]|
      ensures arcs[u][i].cost.Fixed? && arcs[u][i].cost.w >= 0.0
    {
      assert arcs[u][i] == EntryArc(adj[u][i], false, forbidN, forbidR);
    }
    FixedIsFifo(arcs);
  }

  /** A walk of the constrained view respects the constraints: no node on
      it is forbidden, and every hop is an adjacency entry of an allowed
      road type leading to the next node. */
  lemma ViewWalkAllowed(adj: map<int, seq<Edge>>, time: bool, forbidN: set<int>, forbidR: set<string>,
                        s: int, w: seq<Hop>)
    requires IsWalk(View(adj, time, forbidN, forbidR), s, w) && s !in forbidN
    ensures forall k :: 0 <= k < |w| + 1 ==> Nodes(View(adj, time, forbidN, forbidR), s, w)[k] !in forbidN
    ensures forall k :: 0 <= k < |w| ==>
              var n := Nodes(View(adj, time, forbidN, forbidR), s, w);
              w[k].from == n[k] && w[k].from in adj && 0 <= w[k].idx < |adj[w[k].from]|
              && adj[w[k].from][w[k].idx].v == n[k + 1] && adj[w[k].from][w[k].idx].roadType !in forbidR
  {
    var arcs: map<int, seq<Arc>> := View(adj, time, forbidN, forbidR);
    var n := Nodes(arcs, s, w);
    forall k | 0 <= k < |w|
      ensures w[k].from == n[k] && w[k].from in adj && 0 <= w[k].idx < |adj[w[k].from]|
      ensures adj[w[k].from][w[k].idx].v == n[k + 1] && adj[w[k].from][w[k].idx].roadType !in forbidR
    {
      ViewHop(adj, time, forbidN, forbidR, s, w, k);
    }
    forall k | 0 <= k < |w| + 1
      ensures n[k] !in forbidN
    {
      if k > 0 {
        ViewHop(adj, time, forbidN, forbidR, s, w, k - 1);
      }
    }
  }

  lemma ViewHop(adj: map<int, seq<Edge>>, time: bool, forbidN: set<int>, forbidR: set<string>,
                s: int, w: seq<Hop>, k: int)
    requires IsWalk(View(adj, time, forbidN, forbidR), s, w) && 0 <= k < |w|
    ensures var n := Nodes(View(adj, time, forbidN, forbidR), s, w);
            w[k].from == n[k] && w[k].from in adj && 0 <= w[k].idx < |adj[w[k].from]|
            && adj[w[k].from][w[k].idx].v == n[k + 1] && adj[w[k].from][w[k].idx].roadType !in forbidR
            && n[k + 1] !in forbidN
  {
    var arcs: map<int, seq<Arc>> := View(adj, time, forbidN, forbidR);
    WalkHop(arcs, s, w, k);
    assert arcs[w[k].from][w[k].idx] == EntryArc(adj[w[k].from][w[k].idx], time, forbidN, forbidR);
  }

  /** `dijkstra(g, source, target, mode, forbidden_nodes, forbidden_road_types)`
      over the graph's `nodes` and `adj`. */
  method Dijkstra(nodes: map<int, Node>, adj: map<int, seq<Edge>>, source: int, target: int, mode: string,
                  forbiddenNodes: seq<int>, forbiddenRoadTypes: seq<string>)
    returns (res: SPResult, ghost w: seq<Hop>)
    requires CostsOk(adj, Lower(mode) == "time")
    ensures source in forbiddenNodes || target in forbiddenNodes ==> res == Impossible
    ensures source !in forbiddenNodes && target !in forbiddenNodes && source == target
            ==> res == SPResult(true, 0.0, [source])
    ensures source !in forbiddenNodes && target !in forbiddenNodes && source != target
            && (source !in nodes || target !in nodes)
            ==> res == Impossible
    ensures !res.possible ==> res == Impossible
    ensures res.possible && source != target ==>
              var arcs := View(adj, Lower(mode) == "time", ToSet(forbiddenNodes), ToSet(forbiddenRoadTypes));
              Route(arcs, nodes.Keys, source, target, w) && Nodes(arcs, source, w) == res.path
              && ArcsPre(arcs) && Arrive(arcs, source, w, 0.0) == res.cost
              && (ArcsFifo(arcs) ==> Shortest(arcs, nodes.Keys, source, target, res.cost))
    ensures !res.possible && source !in forbiddenNodes && target !in forbiddenNodes && source in nodes
            && target in nodes ==>
              NoRoute(View(adj, Lower(mode) == "time", ToSet(forbiddenNodes), ToSet(forbiddenRoadTypes)),
                      nodes.Keys, source, target)
  {
    w := [];
    var forbidN := ToSet(forbiddenNodes);
    var forbidR := ToSet(forbiddenRoadTypes);
    if source in forbidN || target in forbidN {
      return Impossible, w;
    }
    if source == target {
      return SPResult(true, 0.0, [source]), w;
    }
    var time := Lower(mode) == "time";
    if source !in nodes || target !in nodes {
      return Impossible, w;
    }
    var arcs: map<int, seq<Arc>> := View(adj, time, forbidN, forbidR);
    ViewPre(adj, time, forbidN, forbidR);
    var dist: map<int, Ext>, parent: map<int, int>;
    ghost var via: map<int, int>, rank: map<int, nat>;
    dist, parent, via, rank := Search(arcs, nodes.Keys, source, Some(target), Inf, false);
    if dist[target] == Inf {
      NoRouteAtInf(arcs, nodes.Keys, source, target, dist);
      return Impossible, w;
    }
    var path := TracePath(arcs, nodes.Keys, source, Inf, dist, parent, via, rank, target);
    w := TreeWalk(arcs, nodes.Keys, source, Inf, dist, parent, via, rank, target);
    res := SPResult(true, dist[target].val, path);
    ShortestAtFin(arcs, nodes.Keys, source, target, dist);
  }

  lemma NoRouteAtInf(arcs: map<int, seq<Arc>>, K: set<int>, src: int, t: int, dist: map<int, Ext>)
    requires t in dist && Reached(arcs, K, src, dist, t) && dist[t] == Inf
    ensures NoRoute(arcs, K, src, t)
  {
  }

  lemma ShortestAtFin(arcs: map<int, seq<Arc>>, K: set<int>, src: int, t: int, dist: map<int, Ext>)
    requires ArcsPre(arcs) && t in dist && Optimal(arcs, K, src, dist, t) && dist[t].Fin?
    ensures ArcsFifo(arcs) ==> Shortest(arcs, K, src, t, dist[t].val)
  {
  }

  /** The ranking key of `knn_euclid`: the squared Euclidean distance in
      degrees, which orders nodes as `hypot` does. */
  function EuclidKey(nodes: map<int, Node>, lat: real, lon: real, id: int): real
    requires id in nodes
  {
    SqDist(lat, lon, nodes[id].lat, nodes[id].lon)
  }

  function PoiIds(nodes: map<int, Node>, poi: string): set<int>
  {
    set id | id in nodes && HasPoi(nodes[id], poi)
  }

  /** `ranked` lists every node carrying `poi` exactly once, nearest first. */
  ghost predicate EuclidRanked(nodes: map<int, Node>, lat: real, lon: real, poi: string, ranked: seq<int>)
  {
    Distinct(ranked)
    && (forall id :: id in ranked <==> id in nodes && HasPoi(nodes[id], poi))
    && forall i, j :: 0 <= i < j < |ranked| ==>
         ranked[i] in nodes && ranked[j] in nodes
         && EuclidKey(nodes, lat, lon, ranked[i]) <= EuclidKey(nodes, lat, lon, ranked[j])
  }

  /** The item vector of `knn_euclid`: one `(distance, id)` per POI node,
      in the map's (unspecified) iteration order. */
  method CollectEuclid(nodes: map<int, Node>, qlat: real, qlon: real, poi: string)
    returns (items: seq<(real, int)>)
    ensures Distinct(Ids(items))
    ensures forall p :: p in items ==>
              p.1 in nodes && HasPoi(nodes[p.1], poi) && p.0 == EuclidKey(nodes, qlat, qlon, p.1)
    ensures forall id :: id in nodes && HasPoi(nodes[id], poi) ==> id in Ids(items)
  {
    items := [];
    var rest := nodes.Keys;
    while rest != {}
      invariant rest <= nodes.Keys
      invariant forall p :: p in items ==>
                  p.1 in nodes && p.1 !in rest && HasPoi(nodes[p.1], poi) && p.0 == EuclidKey(nodes, qlat, qlon, p.1)
      invariant Distinct(Ids(items))
      invariant forall id :: id in nodes && id !in rest && HasPoi(nodes[id], poi) ==> id in Ids(items)
      decreases |rest|
    {
      var id := Pick(rest);
      if HasPoi(nodes[id], poi) {
        var p := (EuclidKey(nodes, qlat, qlon, id), id);
        assert Ids(items + [p]) == Ids(items) + [id];
        items := items + [p];
      }
      rest := rest - {id};
    }
  }

  lemma EuclidSorted(nodes: map<int, Node>, qlat: real, qlon: real, poi: string,
                     items: seq<(real, int)>, sorted: seq<(real, int)>)
    requires Distinct(Ids(items))
    requires forall p :: p in items ==>
               p.1 in nodes && HasPoi(nodes[p.1], poi) && p.0 == EuclidKey(nodes, qlat, qlon, p.1)
    requires forall id :: id in nodes && HasPoi(nodes[id], poi) ==> id in Ids(items)
    requires multiset(sorted) == multiset(items) && SortedBy(sorted, ByKey())
    ensures EuclidRanked(nodes, qlat, qlon, poi, Ids(sorted))
    ensures |Ids(sorted)| == |PoiIds(nodes, poi)|
  {
    PermDistinctIds(items, sorted);
    var ranked := Ids(sorted);
    EuclidOrder(nodes, qlat, qlon, poi, items, sorted);
    SameIds(nodes, poi, ranked);
    DistinctCard(ranked);
  }

  lemma EuclidOrder(nodes: map<int, Node>, qlat: real, qlon: real, poi: string,
                    items: seq<(real, int)>, sorted: seq<(real, int)>)
    requires forall p :: p in items ==>
               p.1 in nodes && HasPoi(nodes[p.1], poi) && p.0 == EuclidKey(nodes, qlat, qlon, p.1)
    requires multiset(sorted) == multiset(items) && SortedBy(sorted, ByKey())
    ensures forall id :: id in Ids(sorted) ==> id in nodes && HasPoi(nodes[id], poi)
    ensures forall i, j :: 0 <= i < j < |sorted| ==>
              sorted[i].1 in nodes && sorted[j].1 in nodes
              && EuclidKey(nodes, qlat, qlon, sorted[i].1) <= EuclidKey(nodes, qlat, qlon, sorted[j].1)
  {
    forall i, j | 0 <= i < j < |sorted|
      ensures sorted[i].1 in nodes && sorted[j].1 in nodes
      ensures EuclidKey(nodes, qlat, qlon, sorted[i].1) <= EuclidKey(nodes, qlat, qlon, sorted[j].1)
    {
      assert sorted[i] in multiset(items) && sorted[j] in multiset(items);
      assert ByKey()(sorted[i], sorted[j]);
    }
    forall id | id in Ids(sorted)
      ensures id in nodes && HasPoi(nodes[id], poi)
    {
      var i :| 0 <= i < |sorted| && Ids(sorted)[i] == id;
      assert sorted[i] in multiset(items);
    }
  }

  lemma SameIds(nodes: map<int, Node>, poi: string, ranked: seq<int>)
    requires forall id :: id in ranked <==> id in nodes && HasPoi(nodes[id], poi)
    ensures ToSet(ranked) == PoiIds(nodes, poi)
  {
    forall id | id in PoiIds(nodes, poi)
      ensures id in ToSet(ranked)
    {
    }
    forall id | id in ToSet(ranked)
      ensures id in PoiIds(nodes, poi)
    {
    }
  }

  /** `knn_euclid`: the first `k` of the POI nodes ranked by distance to
      the query point (ties in either order: `std::sort` is not stable). */
  method KnnEuclid(nodes: map<int, Node>, qlat: real, qlon: real, poi: string, k: int)
    returns (out: seq<int>, ghost ranked: seq<int>)
    ensures EuclidRanked(nodes, qlat, qlon, poi, ranked)
    ensures |ranked| == |PoiIds(nodes, poi)|
    ensures out == ranked[..Clip(k, |ranked|)]
  {
    var items := CollectEuclid(nodes, qlat, qlon, poi);
    Preorders();
    var sorted := SortBy(items, ByKey());
    EuclidSorted(nodes, qlat, qlon, poi, items, sorted);
    ranked := Ids(sorted);
    out := TakeIds(sorted, k);
  }

  /** Top-k: every POI node left out is no nearer than any node returned. */
  lemma EuclidTopK(nodes: map<int, Node>, lat: real, lon: real, poi: string, ranked: seq<int>, m: nat,
                   i: int, id: int)
    requires EuclidRanked(nodes, lat, lon, poi, ranked) && m <= |ranked| && 0 <= i < m
    requires id in nodes && HasPoi(nodes[id], poi) && id !in ranked[..m]
    ensures ranked[i] in nodes && EuclidKey(nodes, lat, lon, ranked[i]) <= EuclidKey(nodes, lat, lon, id)
  {
    var j :| 0 <= j < |ranked| && ranked[j] == id;
    assert ranked[..m] + ranked[m..] == ranked;
  }

  /** `ranked` lists exactly the POI nodes with a finite distance, once
      each, by non-decreasing distance. */
  ghost predicate NetworkRanked(nodes: map<int, Node>, dist: map<int, Ext>, poi: string, ranked: seq<int>)
  {
    nodes.Keys <= dist.Keys && Distinct(ranked)
    && (forall id :: id in ranked <==> id in nodes && HasPoi(nodes[id], poi) && dist[id].Fin?)
    && forall i, j :: 0 <= i < j < |ranked| ==>
         ranked[i] in dist && ranked[j] in dist && Le(dist[ranked[i]], dist[ranked[j]])
  }

  /** The `found` vector of `knn_shortest_path`: one `(dist, id)` per POI
      node with a finite distance. */
  method CollectReached(nodes: map<int, Node>, dist: map<int, Ext>, poi: string)
    returns (items: seq<(real, int)>)
    requires nodes.Keys <= dist.Keys
    ensures Distinct(Ids(items))
    ensures forall p :: p in items ==> p.1 in nodes && HasPoi(nodes[p.1], poi) && dist[p.1] == Fin(p.0)
    ensures forall id :: id in nodes && HasPoi(nodes[id], poi) && dist[id].Fin? ==> id in Ids(items)
  {
    items := [];
    var rest := nodes.Keys;
    while rest != {}
      invariant rest <= nodes.Keys
      invariant forall p :: p in items ==>
                  p.1 in nodes && p.1 !in rest && HasPoi(nodes[p.1], poi) && dist[p.1] == Fin(p.0)
      invariant Distinct(Ids(items))
      invariant forall id :: id in nodes && id !in rest && HasPoi(nodes[id], poi) && dist[id].Fin? ==> id in Ids(items)
      decreases |rest|
    {
      var id := Pick(rest);
      if HasPoi(nodes[id], poi) && dist[id].Fin? {
        var p := (dist[id].val, id);
        assert Ids(items + [p]) == Ids(items) + [id];
        items := items + [p];
      }
      rest := rest - {id};
    }
  }

  lemma ReachedSorted(nodes: map<int, Node>, dist: map<int, Ext>, poi: string,
                      items: seq<(real, int)>, sorted: seq<(real, int)>)
    requires nodes.Keys <= dist.Keys && Distinct(Ids(items))
    requires forall p :: p in items ==> p.1 in nodes && HasPoi(nodes[p.1], poi) && dist[p.1] == Fin(p.0)
    requires forall id :: id in nodes && HasPoi(nodes[id], poi) && dist[id].Fin? ==> id in Ids(items)
    requires multiset(sorted) == multiset(items) && SortedBy(sorted, ByKey())
    ensures NetworkRanked(nodes, dist, poi, Ids(sorted))
  {
    PermDistinctIds(items, sorted);
    var ranked := Ids(sorted);
    forall i, j | 0 <= i < j < |ranked|
      ensures ranked[i] in dist && ranked[j] in dist && Le(dist[ranked[i]], dist[ranked[j]])
    {
      assert sorted[i] in multiset(items) && sorted[j] in multiset(items);
      assert ByKey()(sorted[i], sorted[j]);
    }
    forall id | id in ranked
      ensures id in nodes && HasPoi(nodes[id], poi) && dist[id].Fin?
    {
      var i :| 0 <= i < |ranked| && ranked[i] == id;
      assert sorted[i] in multiset(items);
    }
  }

  /** `knn_shortest_path`: start at the node nearest the query point (none
      when no node lies within the 1e18 bound, and -1 also stops the query),
      run Dijkstra over lengths from it to exhaustion, and return the first
      `k` POI nodes it reached, nearest first. The size is compared unsigned,
      so a negative `k` returns every reached POI node. */
  method KnnShortestPath(nodes: map<int, Node>, adj: map<int, seq<Edge>>, qlat: real, qlon: real,
                         poi: string, k: int)
    returns (out: seq<int>, ghost nearest: Option<int>, ghost dist: map<int, Ext>, ghost ranked: seq<int>)
    requires CostsOk(adj, false)
    ensures NearestOk(nodes, qlat, qlon, Fin(SENTINEL * SENTINEL), nearest)
    ensures nearest.None? || nearest == Some(-1) ==> out == []
    ensures nearest.Some? && nearest.value != -1 ==>
              var arcs := View(adj, false, {}, {});
              ArcsPre(arcs) && NetworkRanked(nodes, dist, poi, ranked) && out == ranked[..UClip(k, |ranked|)]
              && forall v :: v in nodes ==> ExactDist(arcs, nodes.Keys, nearest.value, dist, v)
  {
    var b := ScanNearest(nodes, qlat, qlon, Fin(SENTINEL * SENTINEL));
    nearest := b;
    var start := if b.Some? then b.value else -1;
    if start == -1 {
      return [], nearest, map[], [];
    }
    var arcs := View(adj, false, {}, {});
    DistanceFifo(adj, {}, {});
    var d: map<int, Ext>, parent: map<int, int>;
    ghost var via: map<int, int>, rank: map<int, nat>;
    d, parent, via, rank := Search(arcs, nodes.Keys, start, None, Inf, false);
    dist := d;
    forall v | v in nodes
      ensures ExactDist(arcs, nodes.Keys, start, dist, v)
    {
      OptimalExact(arcs, nodes.Keys, start, dist, parent, via, rank, v);
    }
    var items := CollectReached(nodes, d, poi);
    Preorders();
    var sorted := SortBy(items, ByKey());
    ReachedSorted(nodes, d, poi, items, sorted);
    ranked := Ids(sorted);
    out := TakeIds(sorted, if k < 0 then |sorted| else k);
  }
}
