// The Phase-3 precomputation: single-source Dijkstra over average travel
// times from every important node, and the row and column indexing of the
// travel-time table the delivery scheduler reads.
module Precompute {
  import opened Common
  import opened Walks
  import opened Engine
  import Sorting
  import Delivery

  /** Every adjacency entry has a non-negative average time. */
  predicate TimesOk(adj: map<int, seq<Edge>>)
  {
    forall u, i :: u in adj && 0 <= i < |adj[u]| ==> adj[u][i].averageTime >= 0.0
  }

  /** The network `dijkstra_all` walks: every adjacency entry, crossing at
      its average time. */
  function TimeView(adj: map<int, seq<Edge>>): (arcs: map<int, seq<Arc>>)
    ensures TimesOk(adj) ==> ArcsPre(arcs)
  {
    map u | u in adj :: seq(|adj[u]|, i requires 0 <= i < |adj[u]| => Arc(adj[u][i].v, Fixed(adj[u][i].averageTime), true))
  }

  lemma TimeViewFixed(adj: map<int, seq<Edge>>)
    requires TimesOk(adj)
    ensures AllFixed(TimeView(adj)) && ArcsPre(TimeView(adj)) && ArcsFifo(TimeView(adj))
  {
    FixedIsFifo(TimeView(adj));
  }

  /** The nodes that get a distance up front: the graph's nodes and the
      source. */
  function Seeded(nodes: map<int, Node>, s: int): set<int>
  {
    nodes.Keys + {s}
  }

  /** No walk from `s` through `K` reaches `v` sooner than `d`. */
  ghost predicate NoShorter(adj: map<int, seq<Edge>>, K: set<int>, s: int, v: int, d: real)
    requires TimesOk(adj)
  {
    forall w :: Route(TimeView(adj), K, s, v, w) ==> d <= Arrive(TimeView(adj), s, w, 0.0)
  }

  /** Some walk from `s` through `K` reaches `v` at exactly `d`. */
  ghost predicate Attained(adj: map<int, seq<Edge>>, K: set<int>, s: int, v: int, d: real)
    requires TimesOk(adj)
  {
    exists w :: Route(TimeView(adj), K, s, v, w) && Arrive(TimeView(adj), s, w, 0.0) == d
  }

  /** `dist[v] <= dist[u] + average_time` for every adjacency entry between
      nodes of `K`. */
  predicate Triangle(adj: map<int, seq<Edge>>, K: set<int>, dist: map<int, real>)
    requires K <= dist.Keys
  {
    forall u, i :: u in K && u in adj && 0 <= i < |adj[u]| && adj[u][i].v in K
      ==> dist[adj[u][i].v] <= dist[u] + adj[u][i].averageTime
  }

  /** The search's distance as the code's `double`, `1e18` standing for
      "not reached". */
  function Val(e: Ext): real
  {
    if e.Fin? then e.val else SENTINEL
  }

  lemma ClosedTriangle(adj: map<int, seq<Edge>>, K: set<int>, s: int, d: map<int, Ext>, dist: map<int, real>)
    requires TimesOk(adj) && ArcsPre(TimeView(adj))
    requires DistOk(K, s, Fin(SENTINEL), d) && Closed(TimeView(adj), K, Fin(SENTINEL), d)
    requires dist == map v | v in d :: Val(d[v])
    ensures K <= dist.Keys && Triangle(adj, K, dist)
  {
    var arcs := TimeView(adj);
    forall u, i | u in K && u in adj && 0 <= i < |adj[u]| && adj[u][i].v in K
      ensures dist[adj[u][i].v] <= dist[u] + adj[u][i].averageTime
    {
      var v := adj[u][i].v;
      assert arcs[u][i] == Arc(v, Fixed(adj[u][i].averageTime), true);
      assert Le(d[v], Fin(SENTINEL)) && Le(d[u], Fin(SENTINEL));
      if Lt(d[u], Fin(SENTINEL)) {
        assert Relaxed(arcs, K, Fin(SENTINEL), d, u, i);
      }
    }
  }

  /** `dijkstra_all(g, s)`: distances from `s` over average times, with no
      target. Every node (and `s`) gets an entry, `s` is at 0, a node not
      reached keeps 1e18, a finite distance is the time of some walk and no
      walk is faster, and no entry can improve a distance. An entry leading
      out of the node set creates a key holding 0, as `operator[]` does. */
  method DijkstraAll(nodes: map<int, Node>, adj: map<int, seq<Edge>>, s: int) returns (dist: map<int, real>)
    requires TimesOk(adj)
    ensures Seeded(nodes, s) <= dist.Keys && dist[s] == 0.0
    ensures forall v :: v in Seeded(nodes, s) ==> 0.0 <= dist[v] <= SENTINEL
    ensures forall v :: v in dist && v !in Seeded(nodes, s) ==> dist[v] == 0.0
    ensures forall v :: v in Seeded(nodes, s) ==> NoShorter(adj, Seeded(nodes, s), s, v, dist[v])
    ensures forall v :: v in Seeded(nodes, s) && dist[v] < SENTINEL ==> Attained(adj, Seeded(nodes, s), s, v, dist[v])
    ensures Triangle(adj, Seeded(nodes, s), dist)
  {
    var K := Seeded(nodes, s);
    var arcs := TimeView(adj);
    TimeViewFixed(adj);
    var d: map<int, Ext>, parent: map<int, int>;
    ghost var via: map<int, int>, rank: map<int, nat>;
    d, parent, via, rank := Search(arcs, K, s, None, Fin(SENTINEL), false);
    dist := map v | v in d :: Val(d[v]);
    forall v | v in K
      ensures NoShorter(adj, K, s, v, dist[v])
    {
      assert Optimal(arcs, K, s, d, v);
      forall w | Route(arcs, K, s, v, w)
        ensures dist[v] <= Arrive(arcs, s, w, 0.0)
      {
        assert Le(d[v], Fin(Arrive(arcs, s, w, 0.0)));
      }
    }
    forall v | v in K && dist[v] < SENTINEL
      ensures Attained(adj, K, s, v, dist[v])
    {
      assert Le(d[v], Fin(SENTINEL));
      var w := TreeWalk(arcs, K, s, Fin(SENTINEL), d, parent, via, rank, v);
      assert Route(arcs, K, s, v, w);
    }
    ClosedTriangle(adj, K, s, d, dist);
  }

  /** `important_set`: the depot and every pickup and dropoff node. */
  method ImportantSet(depot: int, orders: seq<Delivery.Order>) returns (r: set<int>)
    ensures forall x :: x in r <==> x == depot || Delivery.IsStop(orders, x)
  {
    r := {depot};
    var i := 0;
    while i < |orders|
      invariant 0 <= i <= |orders|
      invariant forall x :: x in r <==> x == depot || Delivery.IsStop(orders[..i], x)
    {
      forall x
        ensures Delivery.IsStop(orders[..i + 1], x) <==>
                  Delivery.IsStop(orders[..i], x) || x == orders[i].pickup || x == orders[i].dropoff
      {
        if Delivery.IsStop(orders[..i + 1], x) {
          var k :| 0 <= k < i + 1 && (x == orders[..i + 1][k].pickup || x == orders[..i + 1][k].dropoff);
          if k < i {
            assert orders[..i][k] == orders[k];
          }
        }
        if Delivery.IsStop(orders[..i], x) {
          var k :| 0 <= k < i && (x == orders[..i][k].pickup || x == orders[..i][k].dropoff);
          assert orders[..i + 1][k] == orders[k];
        }
        assert orders[..i + 1][i] == orders[i];
      }
      r := r + {orders[i].pickup, orders[i].dropoff};
      i := i + 1;
    }
    assert orders[..i] == orders;
  }

  /** `col` is the inverse of the index list `ids`. */
  predicate ColumnsOf(ids: seq<int>, col: map<int, int>)
  {
    (forall c :: 0 <= c < |ids| ==> ids[c] in col && col[ids[c]] == c)
    && (forall v :: v in col ==> 0 <= col[v] < |ids| && ids[col[v]] == v)
  }

  /** `node_to_col`: each listed id mapped to its position. */
  method ColumnIndex(ids: seq<int>) returns (col: map<int, int>)
    requires Distinct(ids)
    ensures ColumnsOf(ids, col)
  {
    col := map[];
    var i := 0;
    while i < |ids|
      invariant 0 <= i <= |ids|
      invariant ColumnsOf(ids[..i], col)
    {
      assert forall v :: v in col ==> v != ids[i];
      col := col[ids[i] := i];
      i := i + 1;
    }
    assert ids[..i] == ids;
  }

  /** The copy of one `dijkstra_all` result into a table row: each key
      with a column writes its distance there, in the map's own (unspecified)
      order; a column no key reaches keeps 1e18. */
  method FillRow(distances: map<int, real>, ids: seq<int>, col: map<int, int>) returns (row: seq<real>)
    requires ColumnsOf(ids, col)
    ensures |row| == |ids|
    ensures forall c :: 0 <= c < |ids| ==> row[c] == if ids[c] in distances then distances[ids[c]] else SENTINEL
  {
    row := seq(|ids|, _ => SENTINEL);
    var rest := distances.Keys;
    while rest != {}
      invariant rest <= distances.Keys && |row| == |ids|
      invariant forall c :: 0 <= c < |ids| ==>
                  row[c] == if ids[c] in distances && ids[c] !in rest then distances[ids[c]] else SENTINEL
      decreases |rest|
    {
      var k := Pick(rest);
      if k in col {
        row := row[col[k] := distances[k]];
      }
      rest := rest - {k};
    }
  }

  /** What a table row promises about the distances from `s` to the nodes
      listed in `ids`. */
  ghost predicate RowOk(nodes: map<int, Node>, adj: map<int, seq<Edge>>, s: int, ids: seq<int>, row: seq<real>)
    requires TimesOk(adj)
  {
    |row| == |ids|
    && forall c :: 0 <= c < |ids| && ids[c] in nodes ==>
         0.0 <= row[c] <= SENTINEL
         && NoShorter(adj, Seeded(nodes, s), s, ids[c], row[c])
         && (row[c] < SENTINEL ==> Attained(adj, Seeded(nodes, s), s, ids[c], row[c]))
         && (ids[c] == s ==> row[c] == 0.0)
  }

  /** One row of `dist_table`. */
  method TableRow(nodes: map<int, Node>, adj: map<int, seq<Edge>>, s: int, ids: seq<int>, col: map<int, int>)
    returns (row: seq<real>)
    requires TimesOk(adj) && ColumnsOf(ids, col)
    ensures RowOk(nodes, adj, s, ids, row)
  {
    var distances := DijkstraAll(nodes, adj, s);
    row := FillRow(distances, ids, col);
  }

  /** The important-node and column construction of the precompute program:
      the sorted important nodes (the rows), the sorted node ids (the
      columns), the column index, and one row of distances per important
      node. */
  method BuildTable(nodes: map<int, Node>, adj: map<int, seq<Edge>>, depot: int, orders: seq<Delivery.Order>)
    returns (important: seq<int>, ids: seq<int>, col: map<int, int>, table: seq<seq<real>>)
    requires TimesOk(adj)
    ensures Sorting.Increasing(important) && forall x :: x in important <==> x == depot || Delivery.IsStop(orders, x)
    ensures Sorting.Increasing(ids) && forall x :: x in ids <==> x in nodes
    ensures ColumnsOf(ids, col)
    ensures |table| == |important|
    ensures forall i :: 0 <= i < |important| ==> RowOk(nodes, adj, important[i], ids, table[i])
  {
    var importantSet := ImportantSet(depot, orders);
    ids := Sorting.SortedSet(nodes.Keys);
    assert Distinct(ids) by {
      forall i, j | 0 <= i < j < |ids|
        ensures ids[i] != ids[j]
      {
        assert ids[i] < ids[j];
      }
    }
    col := ColumnIndex(ids);
    important := Sorting.SortedSet(importantSet);
    table := [];
    var i := 0;
    while i < |important|
      invariant 0 <= i <= |important| && |table| == i
      invariant forall k :: 0 <= k < i ==> RowOk(nodes, adj, important[k], ids, table[k])
    {
      var row := TableRow(nodes, adj, important[i], ids, col);
      table := table + [row];
      i := i + 1;
    }
  }
}
