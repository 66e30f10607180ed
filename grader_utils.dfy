// The autograder's graph helpers: the adjacency lists of `load_graph`, the
// reference `dijkstra`, which returns only a distance, `compute_path_length`,
// which prices a submitted path, and `compute_total_processing_time`.
module GraderUtils {
  import opened Common
  import opened Walks
  import opened Engine
  import P3 = GraderPhase3

  /** `{"to": v, "edge_id": eid, "length": length}`. */
  datatype AdjEntry = AdjEntry(to: int, edgeId: int, length: real)

  type AdjList = map<int, seq<AdjEntry>>

  // ----- compute_total_processing_time -----

  /** A result record; `processing_time` may be absent. */
  datatype JResult = JResult(processingTime: Option<real>)

  /** The parsed output: not a dictionary, or one whose `results` list
      (empty when absent) holds the records. */
  datatype JOut = NotADict | Results(results: seq<JResult>)

  predicate AllTimed(rs: seq<JResult>)
  {
    forall k :: 0 <= k < |rs| ==> rs[k].processingTime.Some?
  }

  /** The processing times of fully timed records, in order. */
  function Times(rs: seq<JResult>): (ts: seq<real>)
    requires AllTimed(rs)
    ensures |ts| == |rs| && forall k :: 0 <= k < |rs| ==> ts[k] == rs[k].processingTime.value
  {
    seq(|rs|, k requires 0 <= k < |rs| => rs[k].processingTime.value)
  }

  /** -1 for a non-dictionary output or a record without a processing time,
      otherwise the sum of the processing times. */
  method ComputeTotalProcessingTime(out: JOut) returns (total: real)
    ensures out.NotADict? || !AllTimed(out.results) ==> total == -1.0
    ensures out.Results? && AllTimed(out.results) ==> total == Sum(Times(out.results))
  {
    total := 0.0;
    if out.NotADict? {
      return -1.0;
    }
    var rs := out.results;
    var i := 0;
    while i < |rs|
      invariant 0 <= i <= |rs|
      invariant AllTimed(rs[..i])
      invariant total == Sum(Times(rs[..i]))
    {
      if rs[i].processingTime.None? {
        // the error is logged before returning
        return -1.0;
      }
      assert Times(rs[..i + 1]) == Times(rs[..i]) + [rs[i].processingTime.value];
      total := total + rs[i].processingTime.value;
      i := i + 1;
    }
    assert rs[..i] == rs;
  }

  // ----- load_graph -----

  /** The weight `load_graph` reads: the field, or 1.0 when it is absent. */
  function WeightOr1(e: P3.JEdge, time: bool): real
  {
    match P3.Weight(e, time)
    case None => 1.0
    case Some(w) => w
  }

  /** The edge lacks an adjacency list at an endpoint it appends to. */
  predicate Dangling(g: AdjList, e: P3.JEdge)
  {
    e.u !in g || (!e.oneway && e.v !in g)
  }

  /** The edges appended in file order, or `None` at the first edge whose
      endpoint has no adjacency list (`KeyError`). */
  function Append(g: AdjList, es: seq<P3.JEdge>, time: bool): (r: Option<AdjList>)
    ensures r.Some? ==> r.value.Keys == g.Keys
    decreases |es|
  {
    if |es| == 0 then Some(g)
    else
      var e := es[0];
      if Dangling(g, e) then None
      else Append(AppendOne(g, e, time), es[1..], time)
  }

  /** The entries one edge gives node `x`: the forward one at `u`, then the
      reverse one at `v` unless one-way; both carry the edge's id. */
  function EntriesFrom(e: P3.JEdge, x: int, time: bool): seq<AdjEntry>
  {
    (if e.u == x then [AdjEntry(e.v, e.id, WeightOr1(e, time))] else [])
    + (if !e.oneway && e.v == x then [AdjEntry(e.u, e.id, WeightOr1(e, time))] else [])
  }

  /** The entries the edges give node `x`, in file order. */
  function EntriesAt(es: seq<P3.JEdge>, x: int, time: bool): seq<AdjEntry>
    decreases |es|
  {
    if |es| == 0 then [] else EntriesFrom(es[0], x, time) + EntriesAt(es[1..], x, time)
  }

  /** The lists after one edge that has both endpoints it appends to. */
  function AppendOne(g: AdjList, e: P3.JEdge, time: bool): (r: AdjList)
    requires !Dangling(g, e)
    ensures r.Keys == g.Keys
    ensures forall x :: x in g ==> r[x] == g[x] + EntriesFrom(e, x, time)
  {
    var w := WeightOr1(e, time);
    var g1 := g[e.u := g[e.u] + [AdjEntry(e.v, e.id, w)]];
    if e.oneway then g1 else g1[e.v := g1[e.v] + [AdjEntry(e.u, e.id, w)]]
  }

  /** Appending fails exactly on an edge with a missing endpoint. */
  lemma {:induction false} AppendFails(g: AdjList, es: seq<P3.JEdge>, time: bool)
    ensures Append(g, es, time).None? <==> exists k :: 0 <= k < |es| && Dangling(g, es[k])
    decreases |es|
  {
    if |es| > 0 {
      var e := es[0];
      assert forall k :: 0 < k < |es| ==> es[1..][k - 1] == es[k];
      if !Dangling(g, e) {
        var g2 := AppendOne(g, e, time);
        assert Append(g, es, time) == Append(g2, es[1..], time);
        assert forall k :: 0 <= k < |es| ==> (Dangling(g, es[k]) <==> Dangling(g2, es[k]));
        AppendFails(g2, es[1..], time);
      }
    }
  }

  /** Each node's list is its old list followed by the entries the edges
      give it, in file order. */
  lemma {:induction false} AppendEntries(g: AdjList, es: seq<P3.JEdge>, time: bool, x: int)
    requires Append(g, es, time).Some? && x in g
    ensures Append(g, es, time).value[x] == g[x] + EntriesAt(es, x, time)
    decreases |es|
  {
    if |es| > 0 {
      var e := es[0];
      var g2 := AppendOne(g, e, time);
      assert Append(g, es, time) == Append(g2, es[1..], time);
      AppendEntries(g2, es[1..], time, x);
      var a, b, c := g[x], EntriesFrom(e, x, time), EntriesAt(es[1..], x, time);
      assert g2[x] == a + b;
      assert EntriesAt(es, x, time) == b + c;
      assert (a + b) + c == a + (b + c);
    }
  }

  /** `load_graph` on the parsed file: an empty list per node, then the
      edges appended in order. */
  method LoadGraph(nodeIds: seq<int>, edges: seq<P3.JEdge>, time: bool) returns (r: Option<AdjList>)
    ensures r == Append(map n | n in nodeIds :: [], edges, time)
  {
    var graph: AdjList := map n | n in nodeIds :: [];
    ghost var g0 := graph;
    var i := 0;
    while i < |edges|
      invariant 0 <= i <= |edges|
      invariant Append(g0, edges, time) == Append(graph, edges[i..], time)
    {
      var e := edges[i];
      assert edges[i..][0] == e && edges[i..][1..] == edges[i + 1..];
      if e.u !in graph {
        return None;
      }
      var length := WeightOr1(e, time);
      graph := graph[e.u := graph[e.u] + [AdjEntry(e.v, e.id, length)]];
      if !e.oneway {
        if e.v !in graph {
          return None;
        }
        graph := graph[e.v := graph[e.v] + [AdjEntry(e.u, e.id, length)]];
      }
      i := i + 1;
    }
    assert edges[i..] == [];
    r := Some(graph);
  }

  /** The graph loaded from the file: every node keyed, each node's list
      the entries the edges give it in file order, and `KeyError` exactly
      when an edge names an endpoint that is not a node. */
  lemma LoadedGraph(nodeIds: seq<int>, edges: seq<P3.JEdge>, time: bool)
    ensures var g0: AdjList := map n | n in nodeIds :: [];
            var r := Append(g0, edges, time);
            (r.None? <==> exists k :: 0 <= k < |edges| && Dangling(g0, edges[k]))
            && (r.Some? ==> r.value.Keys == ToSet(nodeIds))
            && (r.Some? ==> forall x :: x in nodeIds ==> r.value[x] == EntriesAt(edges, x, time))
  {
    var g0: AdjList := map n | n in nodeIds :: [];
    AppendFails(g0, edges, time);
    if Append(g0, edges, time).Some? {
      forall x | x in nodeIds
        ensures Append(g0, edges, time).value[x] == EntriesAt(edges, x, time)
      {
        AppendEntries(g0, edges, time, x);
        assert g0[x] == [];
      }
    }
  }

  // ----- compute_path_length -----

  /** The first entry of the list leading to `v`. */
  function FirstTo(es: seq<AdjEntry>, v: int): (r: Option<nat>)
    ensures r.Some? ==> r.value < |es| && es[r.value].to == v && forall j :: 0 <= j < r.value ==> es[j].to != v
    ensures r.None? ==> forall j :: 0 <= j < |es| ==> es[j].to != v
    decreases |es|
  {
    if |es| == 0 then None
    else if es[0].to == v then Some(0)
    else match FirstTo(es[1..], v)
      case None => None
      case Some(k) => Some(k + 1)
  }

  function OutOf(g: AdjList, u: int): seq<AdjEntry>
  {
    if u in g then g[u] else []
  }

  /** The sum over the hops of the first matching entry's length, or `None`
      when some hop has no entry. */
  function PathLength(g: AdjList, path: seq<int>): Option<real>
    decreases |path|
  {
    if |path| < 2 then Some(0.0)
    else
      var u, v := path[|path| - 2], path[|path| - 1];
      match PathLength(g, path[..|path| - 1])
      case None => None
      case Some(x) =>
        match FirstTo(OutOf(g, u), v)
        case None => None
        case Some(k) => Some(x + OutOf(g, u)[k].length)
  }

  /** The inner loop: the length of the first entry leading to `v`. */
  method FirstLength(es: seq<AdjEntry>, v: int) returns (found: bool, w: real)
    ensures found == FirstTo(es, v).Some?
    ensures found ==> w == es[FirstTo(es, v).value].length
  {
    var j := 0;
    while j < |es|
      invariant 0 <= j <= |es|
      invariant forall t :: 0 <= t < j ==> es[t].to != v
    {
      if es[j].to == v {
        FirstToIs(es, v, j);
        return true, es[j].length;
      }
      j := j + 1;
    }
    return false, 0.0;
  }

  lemma FirstToIs(es: seq<AdjEntry>, v: int, j: nat)
    requires j < |es| && es[j].to == v && forall t :: 0 <= t < j ==> es[t].to != v
    ensures FirstTo(es, v) == Some(j)
  {
    var r := FirstTo(es, v);
    assert r.Some?;
    assert !(r.value < j);
  }

  /** `compute_path_length`: 0 for fewer than two nodes, -1 at the first hop
      without an entry, otherwise the total. */
  method ComputePathLength(g: AdjList, path: seq<int>) returns (total: real)
    ensures total == match PathLength(g, path) case None => -1.0 case Some(x) => x
  {
    if |path| < 2 {
      return 0.0;
    }
    total := 0.0;
    var i := 0;
    while i < |path| - 1
      invariant 0 <= i <= |path| - 1
      invariant PathLength(g, path[..i + 1]) == Some(total)
    {
      var u, v := path[i], path[i + 1];
      assert path[..i + 2][..i + 1] == path[..i + 1];
      var found, w := FirstLength(OutOf(g, u), v);
      if !found {
        NonePersists(g, path, i + 2);
        return -1.0;
      }
      total := total + w;
      i := i + 1;
    }
    assert path[..i + 1] == path;
  }

  /** A prefix without a price leaves the whole path without one. */
  lemma {:induction false} NonePersists(g: AdjList, path: seq<int>, n: nat)
    requires n <= |path| && PathLength(g, path[..n]).None?
    ensures PathLength(g, path).None?
    decreases |path|
  {
    if n < |path| {
      var init := path[..|path| - 1];
      assert init[..n] == path[..n];
      NonePersists(g, init, n);
    } else {
      assert path[..n] == path;
    }
  }

  /** A path has no price exactly when one of its hops has no entry. */
  lemma {:induction false} PathLengthNone(g: AdjList, path: seq<int>)
    ensures PathLength(g, path).None? <==>
              exists i :: 0 <= i < |path| - 1 && FirstTo(OutOf(g, path[i]), path[i + 1]).None?
    decreases |path|
  {
    if |path| >= 2 {
      var init := path[..|path| - 1];
      PathLengthNone(g, init);
      assert forall i :: 0 <= i < |init| ==> init[i] == path[i];
    }
  }

  /** With non-negative lengths the -1 sentinel cannot be a price. */
  lemma {:induction false} PathLengthNonNegative(g: AdjList, path: seq<int>)
    requires NonNegative(g) && PathLength(g, path).Some?
    ensures PathLength(g, path).value >= 0.0
    decreases |path|
  {
    if |path| >= 2 {
      PathLengthNonNegative(g, path[..|path| - 1]);
    }
  }

  // ----- dijkstra -----

  predicate NonNegative(g: AdjList)
  {
    forall u, i :: u in g && 0 <= i < |g[u]| ==> g[u][i].length >= 0.0
  }

  /** Every entry leads to a node that has a list. */
  predicate ClosedUnder(g: AdjList)
  {
    forall u, i :: u in g && 0 <= i < |g[u]| ==> g[u][i].to in g
  }

  /** The adjacency lists as a view with fixed weights, every entry usable. */
  function ArcsOf(g: AdjList): (arcs: map<int, seq<Arc>>)
    ensures arcs.Keys == g.Keys
    ensures forall u :: u in g ==> |arcs[u]| == |g[u]|
    ensures forall u, i :: u in g && 0 <= i < |g[u]| ==> arcs[u][i] == Arc(g[u][i].to, Fixed(g[u][i].length), true)
  {
    map u | u in g :: seq(|g[u]|, i requires 0 <= i < |g[u]| => Arc(g[u][i].to, Fixed(g[u][i].length), true))
  }

  lemma ArcsOfFixed(g: AdjList)
    requires NonNegative(g)
    ensures AllFixed(ArcsOf(g)) && ArcsPre(ArcsOf(g)) && ArcsFifo(ArcsOf(g))
  {
    FixedIsFifo(ArcsOf(g));
  }

  lemma ArcsOfPre(g: AdjList)
    requires NonNegative(g)
    ensures ArcsPre(ArcsOf(g))
  {
  }

  /** A priced path is a route of the view: the walk over the first
      matching entries visits exactly the path's nodes and arrives at its
      price. */
  lemma {:induction false} PathWalk(g: AdjList, path: seq<int>) returns (w: seq<Hop>)
    requires NonNegative(g) && |path| >= 1 && PathLength(g, path).Some?
    ensures ArcsPre(ArcsOf(g)) && IsWalk(ArcsOf(g), path[0], w)
    ensures Nodes(ArcsOf(g), path[0], w) == path
    ensures Arrive(ArcsOf(g), path[0], w, 0.0) == PathLength(g, path).value
    decreases |path|
  {
    ArcsOfPre(g);
    if |path| == 1 {
      w := [];
    } else {
      var init := path[..|path| - 1];
      var w' := PathWalk(g, init);
      LastHopWalk(g, path, w');
      LastHopArrive(g, path, w');
      w := w' + [LastHop(g, path)];
    }
  }

  /** The hop of the path's last step: the first matching entry. */
  function LastHop(g: AdjList, path: seq<int>): (h: Hop)
    requires |path| >= 2 && PathLength(g, path).Some?
    ensures h.from == path[|path| - 2] && h.from in g
    ensures 0 <= h.idx < |g[h.from]| && g[h.from][h.idx].to == path[|path| - 1]
  {
    var u := path[|path| - 2];
    Hop(u, FirstTo(OutOf(g, u), path[|path| - 1]).value)
  }

  lemma LastHopWalk(g: AdjList, path: seq<int>, w': seq<Hop>)
    requires |path| >= 2 && PathLength(g, path).Some?
    requires IsWalk(ArcsOf(g), path[0], w') && Nodes(ArcsOf(g), path[0], w') == path[..|path| - 1]
    ensures IsWalk(ArcsOf(g), path[0], w' + [LastHop(g, path)])
    ensures End(ArcsOf(g), path[0], w') == path[|path| - 2]
    ensures Nodes(ArcsOf(g), path[0], w' + [LastHop(g, path)]) == path
  {
    var h := LastHop(g, path);
    WalkSnoc(g, path[0], w', path[..|path| - 1], h);
    SnocLast(path);
  }

  /** A walk of the view extended by an entry out of its last node. */
  lemma WalkSnoc(g: AdjList, s: int, w': seq<Hop>, nodes: seq<int>, h: Hop)
    requires IsWalk(ArcsOf(g), s, w') && Nodes(ArcsOf(g), s, w') == nodes
    requires h.from == nodes[|nodes| - 1] && h.from in g && 0 <= h.idx < |g[h.from]|
    ensures End(ArcsOf(g), s, w') == h.from
    ensures IsWalk(ArcsOf(g), s, w' + [h])
    ensures Nodes(ArcsOf(g), s, w' + [h]) == nodes + [g[h.from][h.idx].to]
  {
    var arcs := ArcsOf(g);
    var w := w' + [h];
    assert w[..|w| - 1] == w';
    assert HopOk(arcs, h);
    assert End(arcs, s, w) == g[h.from][h.idx].to;
  }

  lemma LastHopArrive(g: AdjList, path: seq<int>, w': seq<Hop>)
    requires NonNegative(g) && |path| >= 2 && PathLength(g, path).Some?
    requires ArcsPre(ArcsOf(g)) && IsWalk(ArcsOf(g), path[0], w') && End(ArcsOf(g), path[0], w') == path[|path| - 2]
    requires Arrive(ArcsOf(g), path[0], w', 0.0) == PathLength(g, path[..|path| - 1]).value
    ensures IsWalk(ArcsOf(g), path[0], w' + [LastHop(g, path)])
    ensures Arrive(ArcsOf(g), path[0], w' + [LastHop(g, path)], 0.0) == PathLength(g, path).value
  {
    var arcs := ArcsOf(g);
    var h := LastHop(g, path);
    assert arcs[h.from][h.idx] == Arc(path[|path| - 1], Fixed(g[h.from][h.idx].length), true);
    ArriveExtend(arcs, path[0], w', h, 0.0);
  }

  /** The walks of a view never leave its keys when every entry stays inside. */
  lemma {:induction false} WalkInside(g: AdjList, s: int, w: seq<Hop>)
    requires ClosedUnder(g) && s in g && IsWalk(ArcsOf(g), s, w)
    ensures Within(ArcsOf(g), s, w, g.Keys)
    decreases |w|
  {
    var arcs := ArcsOf(g);
    if |w| > 0 {
      var p := w[..|w| - 1];
      WalkInside(g, s, p);
      var h := w[|w| - 1];
      assert w == p + [h];
      WalkExtend(arcs, s, p, h, g.Keys);
    }
  }

  /** `dijkstra`: the length of a shortest route from `source` to `target`,
      infinite exactly when there is none, 0 when they coincide; and never
      more than the price `compute_path_length` gives any path between them. */
  method Dijkstra(g: AdjList, source: int, target: int) returns (d: Ext)
    requires NonNegative(g) && ClosedUnder(g)
    requires source in g && target in g
    ensures ArcsPre(ArcsOf(g))
    ensures d == Inf <==> NoRoute(ArcsOf(g), g.Keys, source, target)
    ensures d.Fin? ==> exists w :: Route(ArcsOf(g), g.Keys, source, target, w) && Arrive(ArcsOf(g), source, w, 0.0) == d.val
    ensures forall w :: Route(ArcsOf(g), g.Keys, source, target, w) ==> Le(d, Fin(Arrive(ArcsOf(g), source, w, 0.0)))
    ensures source == target ==> d == Fin(0.0)
    ensures forall path :: |path| >= 1 && path[0] == source && path[|path| - 1] == target && PathLength(g, path).Some?
              ==> Le(d, Fin(PathLength(g, path).value))
  {
    var arcs := ArcsOf(g);
    ArcsOfFixed(g);
    var dist: map<int, Ext>, parent: map<int, int>;
    ghost var via: map<int, int>, rank: map<int, nat>;
    dist, parent, via, rank := Search(arcs, g.Keys, source, Some(target), Inf, true);
    OptimalExact(arcs, g.Keys, source, dist, parent, via, rank, target);
    d := dist[target];
    forall path | |path| >= 1 && path[0] == source && path[|path| - 1] == target && PathLength(g, path).Some?
      ensures Le(d, Fin(PathLength(g, path).value))
    {
      var w := PathWalk(g, path);
      WalkInside(g, source, w);
      assert End(arcs, source, w) == Nodes(arcs, source, w)[|w|] == target;
      assert Route(arcs, g.Keys, source, target, w);
    }
  }
}
