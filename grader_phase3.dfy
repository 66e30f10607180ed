// The Phase-3 autograder: the weighted adjacency dictionary it builds from the
// graph file, and `verify_assignments`, which checks a delivery answer
// against the orders (every route known and drivable, every assigned order
// picked up before it is dropped off, every order assigned exactly once)
// and sums the time at which each order is dropped off.
module GraderPhase3 {
  import opened Common

  // ----- load_graph_time -----

  /** An edge record of the graph file: the weight the autograder reads may be
      absent; `oneway` defaults to false. */
  datatype JEdge = JEdge(id: int, u: int, v: int, length: Option<real>, averageTime: Option<real>, oneway: bool)

  type WGraph = map<int, map<int, real>>

  /** `graph.get(u, {})`. */
  function Out(g: WGraph, u: int): map<int, real>
  {
    if u in g then g[u] else map[]
  }

  /** `graph.setdefault(u, {})[v] = w`. */
  function SetArc(g: WGraph, u: int, v: int, w: real): (r: WGraph)
    ensures r.Keys == g.Keys + {u}
  {
    g[u := Out(g, u)[v := w]]
  }

  function Weight(e: JEdge, time: bool): Option<real>
  {
    if time then e.averageTime else e.length
  }

  /** The node entries, then each edge in file order (its reverse too
      unless one-way), or `None` at the first edge without a weight. */
  function EdgesInto(g: WGraph, es: seq<JEdge>, time: bool): Option<WGraph>
    decreases |es|
  {
    if |es| == 0 then Some(g)
    else
      var e := es[0];
      match Weight(e, time)
      case None => None
      case Some(w) =>
        var g1 := SetArc(g, e.u, e.v, w);
        EdgesInto(if e.oneway then g1 else SetArc(g1, e.v, e.u, w), es[1..], time)
  }

  /** The edge carries a weight and provides the arc `u -> v`. */
  predicate Provides(e: JEdge, time: bool, u: int, v: int)
  {
    Weight(e, time).Some? && ((e.u == u && e.v == v) || (!e.oneway && e.v == u && e.u == v))
  }

  /** `load_graph_time` on the parsed file: the adjacency dictionary and
      the node set, or `None` where an edge lacks the weight. */
  method LoadGraphTime(nodeIds: seq<int>, edges: seq<JEdge>, time: bool) returns (r: Option<(WGraph, set<int>)>)
    ensures r.None? <==> exists k :: 0 <= k < |edges| && Weight(edges[k], time).None?
    ensures r.Some? ==> r.value.1 == ToSet(nodeIds)
    ensures r.Some? ==> EdgesInto(map n | n in nodeIds :: map[], edges, time) == Some(r.value.0)
    ensures r.Some? ==> r.value.0.Keys == ToSet(nodeIds) + ArcTails(edges)
  {
    var graph, nodes := NodeEntries(nodeIds);
    var built := AddEdges(graph, edges, time);
    if built.None? {
      return None;
    }
    // the final loop over the node set adds no key: every node already has one
    EdgesIntoKeys(graph, edges, time);
    r := Some((built.value, nodes));
  }

  /** The node loop: an empty entry per node. */
  method NodeEntries(nodeIds: seq<int>) returns (graph: WGraph, nodes: set<int>)
    ensures nodes == ToSet(nodeIds) == graph.Keys
    ensures graph == map n | n in nodeIds :: map[]
  {
    graph := map[];
    nodes := {};
    var i := 0;
    while i < |nodeIds|
      invariant 0 <= i <= |nodeIds|
      invariant nodes == ToSet(nodeIds[..i]) == graph.Keys
      invariant forall n :: n in graph ==> graph[n] == map[]
    {
      assert nodeIds[..i + 1] == nodeIds[..i] + [nodeIds[i]];
      nodes := nodes + {nodeIds[i]};
      graph := graph[nodeIds[i] := Out(graph, nodeIds[i])];
      i := i + 1;
    }
    assert nodeIds[..i] == nodeIds;
    ghost var g0: WGraph := map n | n in nodeIds :: map[];
    assert g0.Keys == graph.Keys;
    assert forall n :: n in g0 ==> g0[n] == graph[n];
  }

  /** The edge loop, raising at the first edge without the weight. */
  method AddEdges(g0: WGraph, edges: seq<JEdge>, time: bool) returns (r: Option<WGraph>)
    ensures r == EdgesInto(g0, edges, time)
    ensures r.None? <==> exists k :: 0 <= k < |edges| && Weight(edges[k], time).None?
  {
    var graph := g0;
    var i := 0;
    while i < |edges|
      invariant 0 <= i <= |edges|
      invariant forall k :: 0 <= k < i ==> Weight(edges[k], time).Some?
      invariant EdgesInto(g0, edges, time) == EdgesInto(graph, edges[i..], time)
    {
      var e := edges[i];
      var w := Weight(e, time);
      if w.None? {
        return None;
      }
      assert edges[i..][1..] == edges[i + 1..];
      graph := SetArc(graph, e.u, e.v, w.value);
      if !e.oneway {
        graph := SetArc(graph, e.v, e.u, w.value);
      }
      i := i + 1;
    }
    assert edges[i..] == [];
    r := Some(graph);
  }

  /** The arc `u -> v` of an adjacency dictionary, if present. */
  function Arc(g: WGraph, u: int, v: int): Option<real>
  {
    if v in Out(g, u) then Some(Out(g, u)[v]) else None
  }

  /** The index of the last edge providing `u -> v`. */
  function LastProvider(es: seq<JEdge>, time: bool, u: int, v: int): (r: Option<nat>)
    ensures r.Some? ==> r.value < |es|
    decreases |es|
  {
    if |es| == 0 then None
    else match LastProvider(es[1..], time, u, v)
      case Some(k) => Some(k + 1)
      case None => if Provides(es[0], time, u, v) then Some(0) else None
  }

  lemma {:induction false} LastProviderIsLast(es: seq<JEdge>, time: bool, u: int, v: int)
    ensures match LastProvider(es, time, u, v)
      case Some(k) => k < |es| && Provides(es[k], time, u, v)
                      && forall j :: k < j < |es| ==> !Provides(es[j], time, u, v)
      case None => forall j :: 0 <= j < |es| ==> !Provides(es[j], time, u, v)
    decreases |es|
  {
    if |es| > 0 {
      LastProviderIsLast(es[1..], time, u, v);
      assert forall j :: 0 < j < |es| ==> es[1..][j - 1] == es[j];
    }
  }

  lemma SetArcArc(g: WGraph, a: int, b: int, w: real, u: int, v: int)
    ensures Arc(SetArc(g, a, b, w), u, v) == if a == u && b == v then Some(w) else Arc(g, u, v)
  {
  }

  /** Writing one weighted edge sets the arcs it provides and no other. */
  lemma EdgeArc(g: WGraph, e: JEdge, time: bool, u: int, v: int)
    requires Weight(e, time).Some?
    ensures var w := Weight(e, time).value;
            var g1 := SetArc(g, e.u, e.v, w);
            Arc(if e.oneway then g1 else SetArc(g1, e.v, e.u, w), u, v)
              == if Provides(e, time, u, v) then Some(w) else Arc(g, u, v)
  {
    var w := Weight(e, time).value;
    var g1 := SetArc(g, e.u, e.v, w);
    SetArcArc(g, e.u, e.v, w, u, v);
    SetArcArc(g1, e.v, e.u, w, u, v);
  }

  /** Writing the edges in file order leaves on each arc the weight of the
      last edge that provides it, and the arc as it was where none does. */
  lemma {:induction false} EdgesIntoArc(g: WGraph, es: seq<JEdge>, time: bool, u: int, v: int)
    requires EdgesInto(g, es, time).Some?
    ensures Arc(EdgesInto(g, es, time).value, u, v)
         == match LastProvider(es, time, u, v)
            case Some(k) => Weight(es[k], time)
            case None => Arc(g, u, v)
    decreases |es|
  {
    if |es| > 0 {
      var e := es[0];
      var w := Weight(e, time).value;
      var g1 := SetArc(g, e.u, e.v, w);
      var g2 := if e.oneway then g1 else SetArc(g1, e.v, e.u, w);
      assert EdgesInto(g, es, time) == EdgesInto(g2, es[1..], time);
      EdgesIntoArc(g2, es[1..], time, u, v);
      EdgeArc(g, e, time, u, v);
      match LastProvider(es[1..], time, u, v)
      case Some(k) =>
        assert es[1..][k] == es[k + 1];
      case None =>
    }
  }

  /** The tail of every arc the edges provide: `u`, and `v` unless one-way. */
  function ArcTails(es: seq<JEdge>): set<int>
    decreases |es|
  {
    if |es| == 0 then {}
    else {es[0].u} + (if es[0].oneway then {} else {es[0].v}) + ArcTails(es[1..])
  }

  /** The keys are the node entries plus the tail of every arc: the head of
      a one-way edge that is not a node gets no entry. */
  lemma {:induction false} EdgesIntoKeys(g: WGraph, es: seq<JEdge>, time: bool)
    requires EdgesInto(g, es, time).Some?
    ensures EdgesInto(g, es, time).value.Keys == g.Keys + ArcTails(es)
    decreases |es|
  {
    if |es| > 0 {
      var e := es[0];
      var w := Weight(e, time).value;
      var g1 := SetArc(g, e.u, e.v, w);
      var g2 := if e.oneway then g1 else SetArc(g1, e.v, e.u, w);
      assert EdgesInto(g, es, time) == EdgesInto(g2, es[1..], time);
      EdgesIntoKeys(g2, es[1..], time);
      assert g2.Keys == g.Keys + {e.u} + (if e.oneway then {} else {e.v});
    }
  }

  // ----- verify_assignments -----

  /** An order of the input event; each field may be absent. */
  datatype JOrder = JOrder(orderId: Option<int>, pickup: Option<int>, dropoff: Option<int>)

  /** An assignment of the answer: `route` is `None` when it is absent or
      not a list; `order_ids` defaults to the empty list. */
  datatype JAssignment = JAssignment(route: Option<seq<int>>, orderIds: seq<int>)

  /** The answer's `assignments` field. */
  datatype AssignmentsField = Absent | NotAList | Listed(items: seq<JAssignment>)

  /** Why an answer is rejected, one constructor per message. */
  datatype Failure =
    | NoOrders
    | NoOrderId
    | DuplicateOrder(oid: int)
    | NoStops(oid: int)
    | NoAssignments
    | AssignmentsNotList
    | RouteNotList
    | UnknownNode(node: int)
    | InvalidEdge(u: int, v: int)
    | UnknownOrder(oid: int)
    | PickupAbsent(oid: int, stop: int)
    | DropoffAbsent(oid: int, stop: int)
    | DropoffBeforePickup(oid: int)
    | NotAssigned(ids: set<int>)
    | AssignedTwice(ids: set<int>)

  datatype Outcome<T> = Ok(value: T) | Err(why: Failure)

  /** `(False, message)` or `(True, total_penalty_time)`. */
  datatype Verdict = Fail(why: Failure) | Pass(penalty: real)

  /** Order id to (pickup, dropoff). */
  type OrderMap = map<int, (int, int)>

  /** The order map, built in input order up to the first bad order. */
  function OrdersFrom(os: seq<JOrder>, m: OrderMap): Outcome<OrderMap>
    decreases |os|
  {
    if |os| == 0 then Ok(m)
    else
      var o := os[0];
      if o.orderId.None? then Err(NoOrderId)
      else if o.orderId.value in m then Err(DuplicateOrder(o.orderId.value))
      else if o.pickup.None? || o.dropoff.None? then Err(NoStops(o.orderId.value))
      else OrdersFrom(os[1..], m[o.orderId.value := (o.pickup.value, o.dropoff.value)])
  }

  predicate Complete(o: JOrder)
  {
    o.orderId.Some? && o.pickup.Some? && o.dropoff.Some?
  }

  /** The orders are accepted exactly when each has an id and both stops and
      no id repeats or is already mapped; the map then sends each id to its
      stops. */
  lemma {:induction false} OrdersFromOk(os: seq<JOrder>, m: OrderMap)
    ensures OrdersFrom(os, m).Ok? <==>
              (forall k :: 0 <= k < |os| ==> Complete(os[k]) && os[k].orderId.value !in m)
              && (forall j, k :: 0 <= j < k < |os| && Complete(os[j]) && Complete(os[k]) ==>
                    os[j].orderId.value != os[k].orderId.value)
    decreases |os|
  {
    if |os| > 0 {
      var o := os[0];
      if Complete(o) && o.orderId.value !in m {
        var m1 := m[o.orderId.value := (o.pickup.value, o.dropoff.value)];
        OrdersFromOk(os[1..], m1);
        assert forall k :: 0 < k < |os| ==> os[1..][k - 1] == os[k];
      }
    }
  }

  /** An accepted order list keeps the given entries and maps exactly the
      orders' ids, each to its own stops. */
  lemma {:induction false} OrdersFromMap(os: seq<JOrder>, m: OrderMap)
    requires OrdersFrom(os, m).Ok?
    ensures var r := OrdersFrom(os, m).value;
            (forall x :: x in m ==> x in r && r[x] == m[x])
            && (forall x :: x in r <==> x in m || exists k :: 0 <= k < |os| && os[k].orderId == Some(x))
            && forall k :: 0 <= k < |os| ==>
                 Complete(os[k]) && os[k].orderId.value in r
                 && r[os[k].orderId.value] == (os[k].pickup.value, os[k].dropoff.value)
    decreases |os|
  {
    OrdersFromOk(os, m);
    if |os| > 0 {
      var o := os[0];
      var m1 := m[o.orderId.value := (o.pickup.value, o.dropoff.value)];
      OrdersFromMap(os[1..], m1);
      assert forall k :: 0 < k < |os| ==> os[1..][k - 1] == os[k];
      var r := OrdersFrom(os, m).value;
      forall x | x in r
        ensures x in m || exists k :: 0 <= k < |os| && os[k].orderId == Some(x)
      {
        if x !in m1 {
          var k :| 0 <= k < |os[1..]| && os[1..][k].orderId == Some(x);
          assert os[k + 1].orderId == Some(x);
        }
      }
    }
  }

  /** The first node of the route outside the node set. */
  function UnknownNodeIn(route: seq<int>, nodes: set<int>): (r: Option<int>)
    ensures r.None? <==> forall i :: 0 <= i < |route| ==> route[i] in nodes
    ensures r.Some? ==> r.value in route && r.value !in nodes
    decreases |route|
  {
    if |route| == 0 then None
    else if route[0] !in nodes then Some(route[0])
    else UnknownNodeIn(route[1..], nodes)
  }

  /** Every hop of the route is an arc of the graph. */
  predicate Drivable(g: WGraph, route: seq<int>)
  {
    forall i :: 0 <= i < |route| - 1 ==> route[i + 1] in Out(g, route[i])
  }

  /** The first hop of the route that is not an arc of the graph. */
  function BadHopIn(g: WGraph, route: seq<int>): (r: Option<(int, int)>)
    ensures r.None? <==> Drivable(g, route)
    ensures r.Some? ==> exists i :: 0 <= i < |route| - 1 && r.value == (route[i], route[i + 1]) && route[i + 1] !in Out(g, route[i])
    decreases |route|
  {
    if |route| < 2 then None
    else if route[1] !in Out(g, route[0]) then Some((route[0], route[1]))
    else
      var r := BadHopIn(g, route[1..]);
      assert forall i :: 0 < i < |route| - 1 ==> route[1..][i - 1] == route[i] && route[1..][i] == route[i + 1];
      r
  }

  /** The first unknown node, else the first missing arc. */
  function RouteFailure(g: WGraph, nodes: set<int>, route: seq<int>): (r: Option<Failure>)
    ensures r.None? <==> (forall i :: 0 <= i < |route| ==> route[i] in nodes) && Drivable(g, route)
  {
    match UnknownNodeIn(route, nodes)
    case Some(n) => Some(UnknownNode(n))
    case None =>
      match BadHopIn(g, route)
      case Some(h) => Some(InvalidEdge(h.0, h.1))
      case None => None
  }

  /** How often `x` occurs in `s`. */
  function Occ(s: seq<int>, x: int): nat
    decreases |s|
  {
    if |s| == 0 then 0 else (if s[0] == x then 1 else 0) + Occ(s[1..], x)
  }

  /** The coverage counts after the assignment's order ids, up to the
      first id that is not an order. */
  function CountIds(m: OrderMap, ids: seq<int>, cov: map<int, nat>): (r: Outcome<map<int, nat>>)
    requires cov.Keys == m.Keys
    ensures r.Ok? <==> forall k :: 0 <= k < |ids| ==> ids[k] in m
    ensures r.Ok? ==> r.value.Keys == m.Keys
    decreases |ids|
  {
    if |ids| == 0 then Ok(cov)
    else if ids[0] !in m then Err(UnknownOrder(ids[0]))
    else
      var r := CountIds(m, ids[1..], cov[ids[0] := cov[ids[0]] + 1]);
      assert forall k :: 0 < k < |ids| ==> ids[1..][k - 1] == ids[k];
      r
  }

  /** Each order's count grows by its number of occurrences. */
  lemma {:induction false} CountIdsCounts(m: OrderMap, ids: seq<int>, cov: map<int, nat>)
    requires cov.Keys == m.Keys
    requires CountIds(m, ids, cov).Ok?
    ensures forall x :: x in m ==> CountIds(m, ids, cov).value[x] == cov[x] + Occ(ids, x)
    decreases |ids|
  {
    if |ids| > 0 {
      CountIdsCounts(m, ids[1..], cov[ids[0] := cov[ids[0]] + 1]);
    }
  }

  /** The travel time from the start of the route to position `i`. */
  function Prefix(g: WGraph, route: seq<int>, i: nat): real
    requires Drivable(g, route) && i < |route|
  {
    if i == 0 then 0.0 else Prefix(g, route, i - 1) + Out(g, route[i - 1])[route[i]]
  }

  /** The first position holding `x`. */
  function FirstIndex(route: seq<int>, x: int): (k: nat)
    requires x in route
    ensures k < |route| && route[k] == x && forall j :: 0 <= j < k ==> route[j] != x
    decreases |route|
  {
    if route[0] == x then 0
    else
      var k := 1 + FirstIndex(route[1..], x);
      assert forall j :: 0 < j < k ==> route[1..][j - 1] == route[j];
      k
  }

  /** The first position from `j` on holding `x`. */
  function FirstFrom(route: seq<int>, x: int, j: nat): (r: Option<nat>)
    ensures r.Some? ==> j <= r.value < |route| && route[r.value] == x
                        && forall t :: j <= t < r.value ==> route[t] != x
    ensures r.None? ==> forall t :: j <= t < |route| ==> route[t] != x
    decreases |route| - j
  {
    if j >= |route| then None
    else if route[j] == x then Some(j)
    else FirstFrom(route, x, j + 1)
  }

  /** The route visits `d` after visiting `p`. */
  predicate Served(route: seq<int>, p: int, d: int)
  {
    exists i, j :: 0 <= i < j < |route| && route[i] == p && route[j] == d
  }

  /** The autograder's test (a dropoff after the first pickup) is exactly
      "the route visits the dropoff after the pickup". */
  lemma ServedFirst(route: seq<int>, p: int, d: int)
    ensures (p in route && d in route && FirstFrom(route, d, FirstIndex(route, p) + 1).Some?) <==> Served(route, p, d)
  {
    if Served(route, p, d) {
      var i, j :| 0 <= i < j < |route| && route[i] == p && route[j] == d;
      assert p in route && d in route;
      var f := FirstIndex(route, p);
      assert f <= i;
      assert FirstFrom(route, d, f + 1).Some?;
    }
  }

  /** The penalty one order adds: the travel time to the first dropoff
      visit after its first pickup visit, or why the route fails it. */
  function OrderStep(g: WGraph, m: OrderMap, route: seq<int>, oid: int, acc: real): Outcome<real>
    requires Drivable(g, route) && oid in m
  {
    var p := m[oid].0;
    var d := m[oid].1;
    if p !in route then Err(PickupAbsent(oid, p))
    else if d !in route then Err(DropoffAbsent(oid, d))
    else match FirstFrom(route, d, FirstIndex(route, p) + 1)
      case None => Err(DropoffBeforePickup(oid))
      case Some(j) => Ok(acc + Prefix(g, route, j))
  }

  /** The penalty added by the assignment's orders, up to the first order
      the route does not serve. */
  function OrderPenalties(g: WGraph, m: OrderMap, route: seq<int>, ids: seq<int>, acc: real): Outcome<real>
    requires Drivable(g, route) && forall k :: 0 <= k < |ids| ==> ids[k] in m
    decreases |ids|
  {
    if |ids| == 0 then Ok(acc)
    else match OrderStep(g, m, route, ids[0], acc)
      case Err(f) => Err(f)
      case Ok(a) =>
        assert forall k :: 0 < k < |ids| ==> ids[1..][k - 1] == ids[k];
        OrderPenalties(g, m, route, ids[1..], a)
  }

  /** The assignment's orders are all served exactly when no penalty step fails. */
  lemma {:induction false} OrderPenaltiesOk(g: WGraph, m: OrderMap, route: seq<int>, ids: seq<int>, acc: real)
    requires Drivable(g, route) && forall k :: 0 <= k < |ids| ==> ids[k] in m
    ensures OrderPenalties(g, m, route, ids, acc).Ok? <==>
              forall k :: 0 <= k < |ids| ==> Served(route, m[ids[k]].0, m[ids[k]].1)
    decreases |ids|
  {
    if |ids| > 0 {
      ServedFirst(route, m[ids[0]].0, m[ids[0]].1);
      assert forall k :: 0 < k < |ids| ==> ids[1..][k - 1] == ids[k];
      match OrderStep(g, m, route, ids[0], acc)
      case Err(_) =>
      case Ok(a) => OrderPenaltiesOk(g, m, route, ids[1..], a);
    }
  }

  /** Coverage counts and the penalty so far. */
  datatype Tally = Tally(coverage: map<int, nat>, total: real)

  /** One assignment: its route, its hops, its order ids, then its orders. */
  function AssignStep(g: WGraph, nodes: set<int>, m: OrderMap, a: JAssignment, t: Tally): (r: Outcome<Tally>)
    requires t.coverage.Keys == m.Keys
    ensures r.Ok? ==> r.value.coverage.Keys == m.Keys
  {
    if a.route.None? then Err(RouteNotList)
    else
      var route := a.route.value;
      match RouteFailure(g, nodes, route)
      case Some(f) => Err(f)
      case None =>
        match CountIds(m, a.orderIds, t.coverage)
        case Err(f) => Err(f)
        case Ok(cov) =>
          match OrderPenalties(g, m, route, a.orderIds, t.total)
          case Err(f) => Err(f)
          case Ok(total) => Ok(Tally(cov, total))
  }

  /** What the autograder demands of one assignment. */
  predicate AssignmentOk(g: WGraph, nodes: set<int>, m: OrderMap, a: JAssignment)
  {
    a.route.Some?
    && (forall i :: 0 <= i < |a.route.value| ==> a.route.value[i] in nodes)
    && Drivable(g, a.route.value)
    && forall k :: 0 <= k < |a.orderIds| ==>
         a.orderIds[k] in m && Served(a.route.value, m[a.orderIds[k]].0, m[a.orderIds[k]].1)
  }

  /** A step succeeds exactly on an acceptable assignment, and then adds
      the assignment's occurrences to the coverage. */
  lemma AssignStepOk(g: WGraph, nodes: set<int>, m: OrderMap, a: JAssignment, t: Tally)
    requires t.coverage.Keys == m.Keys
    ensures AssignStep(g, nodes, m, a, t).Ok? <==> AssignmentOk(g, nodes, m, a)
    ensures AssignStep(g, nodes, m, a, t).Ok? ==>
              forall x :: x in m ==> AssignStep(g, nodes, m, a, t).value.coverage[x] == t.coverage[x] + Occ(a.orderIds, x)
  {
    if a.route.Some? && RouteFailure(g, nodes, a.route.value).None?
       && CountIds(m, a.orderIds, t.coverage).Ok? {
      OrderPenaltiesOk(g, m, a.route.value, a.orderIds, t.total);
      CountIdsCounts(m, a.orderIds, t.coverage);
    }
  }

  /** The coverage and penalty after the assignments, up to the first failure. */
  function Scan(g: WGraph, nodes: set<int>, m: OrderMap, items: seq<JAssignment>): (r: Outcome<Tally>)
    ensures r.Ok? ==> r.value.coverage.Keys == m.Keys
    decreases |items|
  {
    if |items| == 0 then Ok(Tally(map x | x in m :: 0, 0.0))
    else match Scan(g, nodes, m, items[..|items| - 1])
      case Err(f) => Err(f)
      case Ok(t) => AssignStep(g, nodes, m, items[|items| - 1], t)
  }

  /** How often `x` occurs across the assignments' order ids. */
  function OccAll(items: seq<JAssignment>, x: int): nat
    decreases |items|
  {
    if |items| == 0 then 0 else OccAll(items[..|items| - 1], x) + Occ(items[|items| - 1].orderIds, x)
  }

  /** The scan succeeds exactly when every assignment is acceptable, and
      then counts every order's occurrences. */
  lemma {:induction false} ScanOk(g: WGraph, nodes: set<int>, m: OrderMap, items: seq<JAssignment>)
    ensures Scan(g, nodes, m, items).Ok? <==> forall k :: 0 <= k < |items| ==> AssignmentOk(g, nodes, m, items[k])
    ensures Scan(g, nodes, m, items).Ok? ==>
              forall x :: x in m ==> Scan(g, nodes, m, items).value.coverage[x] == OccAll(items, x)
    decreases |items|
  {
    if |items| > 0 {
      var init := items[..|items| - 1];
      ScanOk(g, nodes, m, init);
      assert forall k :: 0 <= k < |init| ==> init[k] == items[k];
      if Scan(g, nodes, m, init).Ok? {
        AssignStepOk(g, nodes, m, items[|items| - 1], Scan(g, nodes, m, init).value);
      }
    }
  }

  /** The orders never assigned, and those assigned more than once. */
  function Unassigned(cov: map<int, nat>): set<int>
  {
    set x | x in cov && cov[x] == 0
  }

  function Reassigned(cov: map<int, nat>): set<int>
  {
    set x | x in cov && cov[x] > 1
  }

  /** `verify_assignments` on the parsed event and answer. */
  function Verify(g: WGraph, nodes: set<int>, orders: Option<seq<JOrder>>, answer: AssignmentsField): Verdict
  {
    if orders.None? then Fail(NoOrders)
    else match OrdersFrom(orders.value, map[])
      case Err(f) => Fail(f)
      case Ok(m) =>
        if answer.Absent? then Fail(NoAssignments)
        else if answer.NotAList? then Fail(AssignmentsNotList)
        else match Scan(g, nodes, m, answer.items)
          case Err(f) => Fail(f)
          case Ok(t) =>
            if Unassigned(t.coverage) != {} then Fail(NotAssigned(Unassigned(t.coverage)))
            else if Reassigned(t.coverage) != {} then Fail(AssignedTwice(Reassigned(t.coverage)))
            else Pass(t.total)
  }

  /** An answer passes exactly when the orders are well formed, every
      assignment is acceptable and every order occurs exactly once across
      the assignments. */
  lemma VerifyPasses(g: WGraph, nodes: set<int>, orders: Option<seq<JOrder>>, answer: AssignmentsField)
    ensures Verify(g, nodes, orders, answer).Pass? <==>
              orders.Some? && OrdersFrom(orders.value, map[]).Ok? && answer.Listed?
              && (forall k :: 0 <= k < |answer.items| ==>
                    AssignmentOk(g, nodes, OrdersFrom(orders.value, map[]).value, answer.items[k]))
              && forall x :: x in OrdersFrom(orders.value, map[]).value ==> OccAll(answer.items, x) == 1
  {
    if orders.Some? && OrdersFrom(orders.value, map[]).Ok? && answer.Listed? {
      var m := OrdersFrom(orders.value, map[]).value;
      ScanOk(g, nodes, m, answer.items);
      if Scan(g, nodes, m, answer.items).Ok? {
        var cov := Scan(g, nodes, m, answer.items).value.coverage;
        if exists x :: x in m && OccAll(answer.items, x) != 1 {
          var x :| x in m && OccAll(answer.items, x) != 1;
          assert cov[x] == 0 || cov[x] > 1;
          assert x in Unassigned(cov) || x in Reassigned(cov);
        } else {
          assert forall x :: x in cov ==> cov[x] == 1;
          assert Unassigned(cov) == {};
          assert Reassigned(cov) == {};
        }
      }
    }
  }

  /** With travel times that are never negative, the total is not negative. */
  lemma {:induction false} PrefixNonNegative(g: WGraph, route: seq<int>, i: nat)
    requires Drivable(g, route) && i < |route|
    requires forall u, v :: u in g && v in g[u] ==> g[u][v] >= 0.0
    ensures Prefix(g, route, i) >= 0.0
  {
    if i > 0 {
      PrefixNonNegative(g, route, i - 1);
      assert route[i] in Out(g, route[i - 1]);
    }
  }

  lemma {:induction false} OrderPenaltiesGrow(g: WGraph, m: OrderMap, route: seq<int>, ids: seq<int>, acc: real)
    requires Drivable(g, route) && forall k :: 0 <= k < |ids| ==> ids[k] in m
    requires forall u, v :: u in g && v in g[u] ==> g[u][v] >= 0.0
    requires OrderPenalties(g, m, route, ids, acc).Ok?
    ensures OrderPenalties(g, m, route, ids, acc).value >= acc
    decreases |ids|
  {
    if |ids| > 0 {
      var p := m[ids[0]].0;
      var d := m[ids[0]].1;
      var j := FirstFrom(route, d, FirstIndex(route, p) + 1).value;
      assert forall k :: 0 < k < |ids| ==> ids[1..][k - 1] == ids[k];
      PrefixNonNegative(g, route, j);
      assert OrderStep(g, m, route, ids[0], acc) == Ok(acc + Prefix(g, route, j));
      OrderPenaltiesGrow(g, m, route, ids[1..], acc + Prefix(g, route, j));
    }
  }

  lemma {:induction false} ScanNonNegative(g: WGraph, nodes: set<int>, m: OrderMap, items: seq<JAssignment>)
    requires forall u, v :: u in g && v in g[u] ==> g[u][v] >= 0.0
    requires Scan(g, nodes, m, items).Ok?
    ensures Scan(g, nodes, m, items).value.total >= 0.0
    decreases |items|
  {
    if |items| > 0 {
      var init := items[..|items| - 1];
      ScanNonNegative(g, nodes, m, init);
      var t := Scan(g, nodes, m, init).value;
      var a := items[|items| - 1];
      OrderPenaltiesGrow(g, m, a.route.value, a.orderIds, t.total);
    }
  }

  lemma PenaltyNonNegative(g: WGraph, nodes: set<int>, orders: Option<seq<JOrder>>, answer: AssignmentsField)
    requires forall u, v :: u in g && v in g[u] ==> g[u][v] >= 0.0
    requires Verify(g, nodes, orders, answer).Pass?
    ensures Verify(g, nodes, orders, answer).penalty >= 0.0
  {
    ScanNonNegative(g, nodes, OrdersFrom(orders.value, map[]).value, answer.items);
  }

  // ----- the loops of `verify_assignments` -----

  /** The positions below `n` holding `x`, in increasing order. */
  function Indices(route: seq<int>, x: int, n: nat): seq<nat>
    requires n <= |route|
  {
    if n == 0 then [] else Indices(route, x, n - 1) + (if route[n - 1] == x then [n - 1] else [])
  }

  lemma {:induction false} IndicesAre(route: seq<int>, x: int, n: nat)
    requires n <= |route|
    ensures forall k :: 0 <= k < |Indices(route, x, n)| ==>
              Indices(route, x, n)[k] < n && route[Indices(route, x, n)[k]] == x
  {
    if n > 0 {
      IndicesAre(route, x, n - 1);
    }
  }

  lemma {:induction false} IndicesHave(route: seq<int>, x: int, n: nat)
    requires n <= |route|
    ensures forall j :: 0 <= j < n && route[j] == x ==> j in Indices(route, x, n)
  {
    if n > 0 {
      IndicesHave(route, x, n - 1);
    }
  }

  lemma {:induction false} IndicesSorted(route: seq<int>, x: int, n: nat)
    requires n <= |route|
    ensures forall a, b :: 0 <= a < b < |Indices(route, x, n)| ==> Indices(route, x, n)[a] < Indices(route, x, n)[b]
  {
    if n > 0 {
      IndicesSorted(route, x, n - 1);
      IndicesAre(route, x, n - 1);
    }
  }

  lemma {:induction false} IndicesNone(route: seq<int>, x: int, n: nat)
    requires n <= |route| && x !in route[..n]
    ensures Indices(route, x, n) == []
  {
    if n > 0 {
      assert route[..n - 1] == route[..n][..n - 1];
      assert route[..n][n - 1] == route[n - 1];
      IndicesNone(route, x, n - 1);
    }
  }

  /** The positions after `k` among `s`: the list comprehension of the
      dropoff search. */
  function Above(s: seq<nat>, k: int): (r: seq<nat>)
    ensures forall e :: e in r <==> e in s && e > k
  {
    if |s| == 0 then [] else (if s[0] > k then [s[0]] else []) + Above(s[1..], k)
  }

  lemma {:induction false} AboveHeadLeast(s: seq<nat>, k: int)
    requires forall a, b :: 0 <= a < b < |s| ==> s[a] < s[b]
    requires |Above(s, k)| > 0
    ensures forall e :: e in Above(s, k) ==> Above(s, k)[0] <= e
  {
    var r := Above(s, k);
    if s[0] > k {
      assert r[0] == s[0];
      forall e | e in r
        ensures r[0] <= e
      {
        var a :| 0 <= a < |s| && s[a] == e;
      }
    } else {
      assert r == Above(s[1..], k);
      AboveHeadLeast(s[1..], k);
    }
  }

  /** The first recorded position of a node is its first index. */
  lemma PickupIndex(route: seq<int>, x: int)
    requires x in route
    ensures |Indices(route, x, |route|)| > 0 && Indices(route, x, |route|)[0] == FirstIndex(route, x)
  {
    var r := Indices(route, x, |route|);
    IndicesAre(route, x, |route|);
    IndicesHave(route, x, |route|);
    IndicesSorted(route, x, |route|);
    var f := FirstIndex(route, x);
    assert f in r;
    var a :| 0 <= a < |r| && r[a] == f;
    assert r[0] <= f;
  }

  /** The first recorded position of `x` after `k` is the first position
      from `k + 1` holding `x`, and there is none exactly when the search
      finds none. */
  lemma DropIndex(route: seq<int>, x: int, k: int)
    requires 0 <= k
    ensures var r := Above(Indices(route, x, |route|), k);
            (|r| == 0 <==> FirstFrom(route, x, k + 1).None?)
            && (|r| > 0 ==> r[0] == FirstFrom(route, x, k + 1).value)
  {
    var s := Indices(route, x, |route|);
    var r := Above(s, k);
    IndicesAre(route, x, |route|);
    IndicesHave(route, x, |route|);
    IndicesSorted(route, x, |route|);
    var f := FirstFrom(route, x, k + 1);
    assert f.Some? ==> f.value in r;
    assert |r| > 0 ==> r[0] in s && r[0] > k;
    if |r| > 0 {
      AboveHeadLeast(s, k);
    }
  }

  /** Orders are read one by one into the order map. */
  method BuildOrderMap(os: seq<JOrder>) returns (r: Outcome<OrderMap>)
    ensures r == OrdersFrom(os, map[])
  {
    var m: OrderMap := map[];
    var i := 0;
    while i < |os|
      invariant 0 <= i <= |os|
      invariant OrdersFrom(os, map[]) == OrdersFrom(os[i..], m)
    {
      var o := os[i];
      assert os[i..][0] == o && os[i..][1..] == os[i + 1..];
      if o.orderId.None? {
        return Err(NoOrderId);
      }
      var oid := o.orderId.value;
      if oid in m {
        return Err(DuplicateOrder(oid));
      }
      if o.pickup.None? || o.dropoff.None? {
        return Err(NoStops(oid));
      }
      m := m[oid := (o.pickup.value, o.dropoff.value)];
      i := i + 1;
    }
    assert os[i..] == [];
    r := Ok(m);
  }

  /** The node loop, then the hop loop, of one route. */
  method CheckRoute(g: WGraph, nodes: set<int>, route: seq<int>) returns (r: Option<Failure>)
    ensures r == RouteFailure(g, nodes, route)
  {
    var i := 0;
    while i < |route|
      invariant 0 <= i <= |route|
      invariant UnknownNodeIn(route, nodes) == UnknownNodeIn(route[i..], nodes)
    {
      assert route[i..][0] == route[i] && route[i..][1..] == route[i + 1..];
      if route[i] !in nodes {
        return Some(UnknownNode(route[i]));
      }
      i := i + 1;
    }
    assert route[i..] == [];
    i := 0;
    while i < |route| - 1
      invariant 0 <= i <= |route|
      invariant |route| > 0 ==> i <= |route| - 1
      invariant BadHopIn(g, route) == BadHopIn(g, route[i..])
    {
      assert route[i..][0] == route[i] && route[i..][1] == route[i + 1] && route[i..][1..] == route[i + 1..];
      var u, v := route[i], route[i + 1];
      if v !in Out(g, u) {
        return Some(InvalidEdge(u, v));
      }
      i := i + 1;
    }
    assert |route[i..]| < 2;
    r := None;
  }

  /** `coverage[oid] += 1` for each assigned id, failing at an unknown one. */
  method CountAssigned(m: OrderMap, ids: seq<int>, cov0: map<int, nat>) returns (r: Outcome<map<int, nat>>)
    requires cov0.Keys == m.Keys
    ensures r == CountIds(m, ids, cov0)
  {
    var cov := cov0;
    var i := 0;
    while i < |ids|
      invariant 0 <= i <= |ids|
      invariant cov.Keys == m.Keys
      invariant CountIds(m, ids, cov0) == CountIds(m, ids[i..], cov)
    {
      var oid := ids[i];
      assert ids[i..][0] == oid && ids[i..][1..] == ids[i + 1..];
      if oid !in m {
        return Err(UnknownOrder(oid));
      }
      cov := cov[oid := cov[oid] + 1];
      i := i + 1;
    }
    assert ids[i..] == [];
    r := Ok(cov);
  }

  /** The prefix array of travel times along a drivable route. */
  method PrefixTimes(g: WGraph, route: seq<int>) returns (prefix: seq<real>)
    requires Drivable(g, route)
    ensures |prefix| == |route|
    ensures forall i :: 0 <= i < |route| ==> prefix[i] == Prefix(g, route, i)
  {
    var a := new real[|route|](_ => 0.0);
    if |route| == 0 {
      return a[..];
    }
    var i := 1;
    while i < |route|
      invariant 1 <= i <= |route|
      invariant forall k :: 0 <= k < i ==> a[k] == Prefix(g, route, k)
    {
      var u, v := route[i - 1], route[i];
      assert v in Out(g, u);
      assert Prefix(g, route, i) == Prefix(g, route, i - 1) + g[u][v];
      a[i] := a[i - 1] + g[u][v];
      i := i + 1;
    }
    prefix := a[..];
  }

  /** Every position of every node of the route, in increasing order. */
  method NodePositions(route: seq<int>) returns (pos: map<int, seq<nat>>)
    ensures forall n :: n in pos <==> n in route
    ensures forall n :: n in pos ==> pos[n] == Indices(route, n, |route|)
  {
    pos := map[];
    var i := 0;
    while i < |route|
      invariant 0 <= i <= |route|
      invariant forall n :: n in pos <==> n in route[..i]
      invariant forall n :: n in pos ==> pos[n] == Indices(route, n, i)
    {
      var node := route[i];
      if node !in pos {
        IndicesNone(route, node, i);
      }
      assert route[..i + 1] == route[..i] + [node];
      ghost var before := pos;
      pos := pos[node := (if node in pos then pos[node] else []) + [i]];
      forall n | n in pos
        ensures pos[n] == Indices(route, n, i + 1)
      {
        if n != node {
          assert pos[n] == before[n];
        }
      }
      i := i + 1;
    }
    assert route[..i] == route;
  }

  /** The penalty of one order, read off the positions map and the prefix array. */
  method PenaltyOf(g: WGraph, m: OrderMap, route: seq<int>, oid: int, prefix: seq<real>,
                   pos: map<int, seq<nat>>, acc: real) returns (r: Outcome<real>)
    requires Drivable(g, route) && oid in m
    requires |prefix| == |route| && forall i :: 0 <= i < |route| ==> prefix[i] == Prefix(g, route, i)
    requires forall n :: n in pos <==> n in route
    requires forall n :: n in pos ==> pos[n] == Indices(route, n, |route|)
    ensures r == OrderStep(g, m, route, oid, acc)
  {
    var pickup, dropoff := m[oid].0, m[oid].1;
    if pickup !in pos {
      return Err(PickupAbsent(oid, pickup));
    }
    if dropoff !in pos {
      return Err(DropoffAbsent(oid, dropoff));
    }
    PickupIndex(route, pickup);
    var pickupIdx := pos[pickup][0];
    var dropIndices := Above(pos[dropoff], pickupIdx);
    DropIndex(route, dropoff, pickupIdx);
    if |dropIndices| == 0 {
      return Err(DropoffBeforePickup(oid));
    }
    var dropIdx := dropIndices[0];
    r := Ok(acc + prefix[dropIdx]);
  }

  /** The penalties of one assignment's orders, in order. */
  method AddPenalties(g: WGraph, m: OrderMap, route: seq<int>, ids: seq<int>, prefix: seq<real>,
                      pos: map<int, seq<nat>>, acc: real) returns (r: Outcome<real>)
    requires Drivable(g, route) && forall k :: 0 <= k < |ids| ==> ids[k] in m
    requires |prefix| == |route| && forall i :: 0 <= i < |route| ==> prefix[i] == Prefix(g, route, i)
    requires forall n :: n in pos <==> n in route
    requires forall n :: n in pos ==> pos[n] == Indices(route, n, |route|)
    ensures r == OrderPenalties(g, m, route, ids, acc)
  {
    var total := acc;
    var i := 0;
    while i < |ids|
      invariant 0 <= i <= |ids|
      invariant forall k :: 0 <= k < |ids[i..]| ==> ids[i..][k] in m
      invariant OrderPenalties(g, m, route, ids, acc) == OrderPenalties(g, m, route, ids[i..], total)
    {
      assert ids[i..][0] == ids[i] && ids[i..][1..] == ids[i + 1..];
      var step := PenaltyOf(g, m, route, ids[i], prefix, pos, total);
      if step.Err? {
        return Err(step.why);
      }
      total := step.value;
      i := i + 1;
    }
    assert ids[i..] == [];
    r := Ok(total);
  }

  /** One assignment of the answer. */
  method CheckAssignment(g: WGraph, nodes: set<int>, m: OrderMap, a: JAssignment, t: Tally) returns (r: Outcome<Tally>)
    requires t.coverage.Keys == m.Keys
    ensures r == AssignStep(g, nodes, m, a, t)
  {
    if a.route.None? {
      return Err(RouteNotList);
    }
    var route := a.route.value;
    var bad := CheckRoute(g, nodes, route);
    if bad.Some? {
      return Err(bad.value);
    }
    var cov := CountAssigned(m, a.orderIds, t.coverage);
    if cov.Err? {
      return Err(cov.why);
    }
    var prefix := PrefixTimes(g, route);
    var pos := NodePositions(route);
    var total := AddPenalties(g, m, route, a.orderIds, prefix, pos, t.total);
    if total.Err? {
      return Err(total.why);
    }
    r := Ok(Tally(cov.value, total.value));
  }

  /** A failed assignment decides the whole scan. */
  lemma {:induction false} ScanFailSticks(g: WGraph, nodes: set<int>, m: OrderMap, items: seq<JAssignment>, n: nat)
    requires n <= |items| && Scan(g, nodes, m, items[..n]).Err?
    ensures Scan(g, nodes, m, items) == Scan(g, nodes, m, items[..n])
    decreases |items|
  {
    if n < |items| {
      var init := items[..|items| - 1];
      assert init[..n] == items[..n];
      ScanFailSticks(g, nodes, m, init, n);
    } else {
      assert items[..n] == items;
    }
  }

  /** The loop over the assignments, stopping at the first failure. */
  method ScanAssignments(g: WGraph, nodes: set<int>, m: OrderMap, items: seq<JAssignment>) returns (r: Outcome<Tally>)
    ensures r == Scan(g, nodes, m, items)
  {
    var t := Tally(map x | x in m :: 0, 0.0);
    var i := 0;
    assert items[..0] == [];
    while i < |items|
      invariant 0 <= i <= |items|
      invariant Scan(g, nodes, m, items[..i]) == Ok(t)
    {
      assert items[..i + 1][..i] == items[..i] && items[..i + 1][i] == items[i];
      var step := CheckAssignment(g, nodes, m, items[i], t);
      assert Scan(g, nodes, m, items[..i + 1]) == step;
      if step.Err? {
        ScanFailSticks(g, nodes, m, items, i + 1);
        return step;
      }
      t := step.value;
      i := i + 1;
    }
    assert items[..i] == items;
    r := Ok(t);
  }

  /** `verify_assignments`: the checks in the autograder's order, then the
      coverage verdict. */
  method VerifyAssignments(g: WGraph, nodes: set<int>, orders: Option<seq<JOrder>>, answer: AssignmentsField)
    returns (v: Verdict)
    ensures v == Verify(g, nodes, orders, answer)
  {
    if orders.None? {
      return Fail(NoOrders);
    }
    var om := BuildOrderMap(orders.value);
    if om.Err? {
      return Fail(om.why);
    }
    var m := om.value;
    if answer.Absent? {
      return Fail(NoAssignments);
    }
    if answer.NotAList? {
      return Fail(AssignmentsNotList);
    }
    var scan := ScanAssignments(g, nodes, m, answer.items);
    if scan.Err? {
      return Fail(scan.why);
    }
    var coverage := scan.value.coverage;
    var missing := set x | x in coverage && coverage[x] == 0;
    var multiple := set x | x in coverage && coverage[x] > 1;
    if missing != {} {
      return Fail(NotAssigned(missing));
    }
    if multiple != {} {
      return Fail(AssignedTwice(multiple));
    }
    v := Pass(scan.value.total);
  }
}
