// Phase-3 delivery scheduling over a precomputed travel-time table: route
// validation, the greedy route builder, 2-opt improvement, the clustering
// of orders among drivers and the total-delivery-time metric.
module Delivery {
  import opened Common
  import Sorting

  datatype Order = Order(orderId: int, pickup: int, dropoff: int)

  datatype Assignment = Assignment(driverId: int, route: seq<int>, orderIds: seq<int>)

  /** The tables `load_precomputed` fills: `rowOf` maps an important node to
      its row, `colOf` any node to its column, `dist[row][col]` is the
      travel time, and `radius`/`angle` are the per-column polar
      coordinates around the depot. */
  datatype Table = Table(rowOf: map<int, int>, colOf: map<int, int>, dist: seq<seq<real>>,
                         radius: seq<real>, angle: seq<real>)

  /** Every row and column index lies inside the tables. */
  predicate TableOk(t: Table)
  {
    |t.angle| == |t.radius|
    && (forall u :: u in t.rowOf ==> 0 <= t.rowOf[u] < |t.dist|)
    && (forall v :: v in t.colOf ==> 0 <= t.colOf[v] < |t.radius|)
    && (forall i :: 0 <= i < |t.dist| ==> |t.dist[i]| == |t.radius|)
  }

  /** `shortest_time(u, v)`. */
  function ShortestTime(t: Table, u: int, v: int): (r: real)
    requires TableOk(t)
    ensures u == v ==> r == 0.0
    ensures u != v && (u !in t.rowOf || v !in t.colOf) ==> r == SENTINEL
    ensures u != v && u in t.rowOf && v in t.colOf ==> r == t.dist[t.rowOf[u]][t.colOf[v]]
  {
    if u == v then 0.0
    else if u !in t.rowOf then SENTINEL
    else if v !in t.colOf then SENTINEL
    else t.dist[t.rowOf[u]][t.colOf[v]]
  }

  // ---------------------------------------------------------------------
  // is_valid_route

  // The check walks the route node by node and, at each node, the orders
  // in their given order: a pickup match sets the order id's flag before
  // the same order's dropoff is looked at. The flags are keyed by order
  // id, so orders sharing an id share them. An event `(p, j)` is order `j`
  // looked at with the route at position `p`; events are ordered
  // lexicographically.

  /** The event `(q, k)` comes before `(p, j)`. */
  predicate Before(q: int, k: int, p: int, j: int)
  {
    q < p || (q == p && k < j)
  }

  /** Ids whose pickup was matched by an event before `(p, j)`. */
  ghost function PickedIds(route: seq<int>, orders: seq<Order>, p: int, j: int): set<int>
  {
    set q, k | 0 <= q < |route| && 0 <= k < |orders| && Before(q, k, p, j) && route[q] == orders[k].pickup
      :: orders[k].orderId
  }

  /** Ids whose dropoff was matched by an event before `(p, j)`. */
  ghost function DroppedIds(route: seq<int>, orders: seq<Order>, p: int, j: int): set<int>
  {
    set q, k | 0 <= q < |route| && 0 <= k < |orders| && Before(q, k, p, j) && route[q] == orders[k].dropoff
      :: orders[k].orderId
  }

  /** At event `(p, j)` the route reaches order `j`'s dropoff while no
      pickup of its id has been matched, this event's own included. */
  ghost predicate Premature(route: seq<int>, orders: seq<Order>, p: int, j: int)
  {
    0 <= p < |route| && 0 <= j < |orders| && route[p] == orders[j].dropoff
    && orders[j].orderId !in PickedIds(route, orders, p, j + 1)
  }

  /** The route never reaches a dropoff early, and for every order some
      pickup and some dropoff of its id are reached. */
  ghost predicate ValidRoute(route: seq<int>, orders: seq<Order>)
  {
    (forall p, j :: !Premature(route, orders, p, j))
    && forall j :: 0 <= j < |orders| ==>
         orders[j].orderId in PickedIds(route, orders, |route|, 0)
         && orders[j].orderId in DroppedIds(route, orders, |route|, 0)
  }

  lemma PickedStep(route: seq<int>, orders: seq<Order>, p: int, j: int)
    requires 0 <= p < |route| && 0 <= j < |orders|
    ensures PickedIds(route, orders, p, j + 1)
            == PickedIds(route, orders, p, j) + (if route[p] == orders[j].pickup then {orders[j].orderId} else {})
    ensures DroppedIds(route, orders, p, j + 1)
            == DroppedIds(route, orders, p, j) + (if route[p] == orders[j].dropoff then {orders[j].orderId} else {})
  {
    var A := PickedIds(route, orders, p, j + 1);
    var B := PickedIds(route, orders, p, j) + (if route[p] == orders[j].pickup then {orders[j].orderId} else {});
    forall x | x in A ensures x in B {
      var q, k :| 0 <= q < |route| && 0 <= k < |orders| && Before(q, k, p, j + 1)
                  && route[q] == orders[k].pickup && x == orders[k].orderId;
      if !(q == p && k == j) {
        assert Before(q, k, p, j);
      }
    }
    var C := DroppedIds(route, orders, p, j + 1);
    var D := DroppedIds(route, orders, p, j) + (if route[p] == orders[j].dropoff then {orders[j].orderId} else {});
    forall x | x in C ensures x in D {
      var q, k :| 0 <= q < |route| && 0 <= k < |orders| && Before(q, k, p, j + 1)
                  && route[q] == orders[k].dropoff && x == orders[k].orderId;
      if !(q == p && k == j) {
        assert Before(q, k, p, j);
      }
    }
  }

  lemma PickedRow(route: seq<int>, orders: seq<Order>, p: int)
    requires 0 <= p < |route|
    ensures PickedIds(route, orders, p, |orders|) == PickedIds(route, orders, p + 1, 0)
    ensures DroppedIds(route, orders, p, |orders|) == DroppedIds(route, orders, p + 1, 0)
  {
  }

  /** The ids of the first `k` orders. */
  function IdsUpTo(orders: seq<Order>, k: int): set<int>
    requires 0 <= k <= |orders|
  {
    set i | 0 <= i < k :: orders[i].orderId
  }

  /** The flag maps agree with the ids matched before event `(p, j)`. */
  ghost predicate FlagsAt(route: seq<int>, orders: seq<Order>, p: int, j: int,
                          picked: map<int, bool>, delivered: map<int, bool>)
  {
    picked.Keys == IdsUpTo(orders, |orders|) && delivered.Keys == IdsUpTo(orders, |orders|)
    && (forall id :: id in picked ==> (picked[id] <==> id in PickedIds(route, orders, p, j)))
    && (forall id :: id in delivered ==> (delivered[id] <==> id in DroppedIds(route, orders, p, j)))
  }

  /** One event of the scan: a pickup match sets the flag; a dropoff match
      fails on an unset flag and otherwise sets the delivered flag. */
  method ScanEvent(route: seq<int>, orders: seq<Order>, p: int, j: int,
                   picked0: map<int, bool>, delivered0: map<int, bool>)
    returns (early: bool, picked: map<int, bool>, delivered: map<int, bool>)
    requires 0 <= p < |route| && 0 <= j < |orders|
    requires FlagsAt(route, orders, p, j, picked0, delivered0) && NoneEarly(route, orders, p, j)
    ensures early <==> Premature(route, orders, p, j)
    ensures !early ==> FlagsAt(route, orders, p, j + 1, picked, delivered) && NoneEarly(route, orders, p, j + 1)
  {
    PickedStep(route, orders, p, j);
    if !Premature(route, orders, p, j) {
      NoneEarlyStep(route, orders, p, j);
    }
    picked, delivered := picked0, delivered0;
    var node := route[p];
    var o := orders[j];
    assert o.orderId in IdsUpTo(orders, |orders|);
    if node == o.pickup {
      picked := picked[o.orderId := true];
    }
    early := false;
    if node == o.dropoff {
      if !picked[o.orderId] {
        early := true;
        return;
      }
      delivered := delivered[o.orderId := true];
    }
  }

  /** The first loop of `is_valid_route`: every order id starts unpicked
      and undelivered. */
  method InitFlags(route: seq<int>, orders: seq<Order>) returns (picked: map<int, bool>, delivered: map<int, bool>)
    ensures FlagsAt(route, orders, 0, 0, picked, delivered)
  {
    picked, delivered := map[], map[];
    var k := 0;
    while k < |orders|
      invariant 0 <= k <= |orders|
      invariant picked.Keys == IdsUpTo(orders, k) && delivered.Keys == IdsUpTo(orders, k)
      invariant forall id :: id in picked ==> !picked[id]
      invariant forall id :: id in delivered ==> !delivered[id]
    {
      picked := picked[orders[k].orderId := false];
      delivered := delivered[orders[k].orderId := false];
      k := k + 1;
    }
    assert PickedIds(route, orders, 0, 0) == {} && DroppedIds(route, orders, 0, 0) == {};
  }

  /** No event before `(p, j)` is a premature dropoff. */
  ghost predicate NoneEarly(route: seq<int>, orders: seq<Order>, p: int, j: int)
  {
    forall q, k {:trigger Premature(route, orders, q, k)} :: Before(q, k, p, j) ==> !Premature(route, orders, q, k)
  }

  lemma NoneEarlyStep(route: seq<int>, orders: seq<Order>, p: int, j: int)
    requires NoneEarly(route, orders, p, j) && !Premature(route, orders, p, j)
    ensures NoneEarly(route, orders, p, j + 1)
  {
    forall q, k | Before(q, k, p, j + 1)
      ensures !Premature(route, orders, q, k)
    {
      if !(q == p && k == j) {
        assert Before(q, k, p, j);
      }
    }
  }

  lemma NoneEarlyRow(route: seq<int>, orders: seq<Order>, p: int)
    requires NoneEarly(route, orders, p, |orders|)
    ensures NoneEarly(route, orders, p + 1, 0)
  {
    forall q, k | Before(q, k, p + 1, 0)
      ensures !Premature(route, orders, q, k)
    {
      if q <= p && 0 <= k < |orders| {
        assert Before(q, k, p, |orders|);
      }
    }
  }

  lemma NoneEarlyAll(route: seq<int>, orders: seq<Order>)
    requires NoneEarly(route, orders, |route|, 0)
    ensures forall p, j :: !Premature(route, orders, p, j)
  {
    forall p, j
      ensures !Premature(route, orders, p, j)
    {
      if p < |route| {
        assert Before(p, j, |route|, 0);
      }
    }
  }

  lemma RowDone(route: seq<int>, orders: seq<Order>, p: int, picked: map<int, bool>, delivered: map<int, bool>)
    requires 0 <= p < |route|
    requires FlagsAt(route, orders, p, |orders|, picked, delivered) && NoneEarly(route, orders, p, |orders|)
    ensures FlagsAt(route, orders, p + 1, 0, picked, delivered) && NoneEarly(route, orders, p + 1, 0)
  {
    PickedRow(route, orders, p);
    NoneEarlyRow(route, orders, p);
  }

  /** The flags are those of the events before `(p, j)`, none of which was
      a premature dropoff. */
  ghost predicate ScanOk(route: seq<int>, orders: seq<Order>, p: int, j: int,
                         picked: map<int, bool>, delivered: map<int, bool>)
  {
    FlagsAt(route, orders, p, j, picked, delivered) && NoneEarly(route, orders, p, j)
  }

  /** The orders loop at one route position. */
  method ScanNode(route: seq<int>, orders: seq<Order>, p: int, picked0: map<int, bool>, delivered0: map<int, bool>)
    returns (early: bool, picked: map<int, bool>, delivered: map<int, bool>, ghost j: int)
    requires 0 <= p < |route|
    requires ScanOk(route, orders, p, 0, picked0, delivered0)
    ensures early ==> Premature(route, orders, p, j)
    ensures !early ==> ScanOk(route, orders, p + 1, 0, picked, delivered)
  {
    picked, delivered := picked0, delivered0;
    var k := 0;
    j := 0;
    early := false;
    while k < |orders| && !early
      invariant 0 <= k <= |orders|
      invariant !early ==> ScanOk(route, orders, p, k, picked, delivered)
      invariant early ==> Premature(route, orders, p, j)
    {
      early, picked, delivered := ScanEvent(route, orders, p, k, picked, delivered);
      j := k;
      k := k + 1;
    }
    if !early {
      RowDone(route, orders, p, picked, delivered);
    }
  }

  /** The double loop of `is_valid_route`: it stops at the first premature
      dropoff, and otherwise ends with the flags of the whole route. */
  method ScanRoute(route: seq<int>, orders: seq<Order>, picked0: map<int, bool>, delivered0: map<int, bool>)
    returns (early: bool, picked: map<int, bool>, delivered: map<int, bool>, ghost ep: int, ghost ej: int)
    requires FlagsAt(route, orders, 0, 0, picked0, delivered0)
    ensures early ==> Premature(route, orders, ep, ej)
    ensures !early ==> (forall p, j :: !Premature(route, orders, p, j))
                       && FlagsAt(route, orders, |route|, 0, picked, delivered)
  {
    picked, delivered := picked0, delivered0;
    ep, ej := 0, 0;
    var p := 0;
    assert ScanOk(route, orders, 0, 0, picked, delivered);
    while p < |route|
      invariant 0 <= p <= |route|
      invariant ScanOk(route, orders, p, 0, picked, delivered)
    {
      early, picked, delivered, ej := ScanNode(route, orders, p, picked, delivered);
      if early {
        ep := p;
        return;
      }
      p := p + 1;
    }
    NoneEarlyAll(route, orders);
    early := false;
  }

  /** `is_valid_route(route, orders)`. */
  method IsValidRoute(route: seq<int>, orders: seq<Order>) returns (ok: bool)
    ensures ok <==> ValidRoute(route, orders)
  {
    var picked, delivered := InitFlags(route, orders);
    var early: bool;
    ghost var ep: int, ej: int;
    early, picked, delivered, ep, ej := ScanRoute(route, orders, picked, delivered);
    if early {
      return false;
    }
    var k := 0;
    while k < |orders|
      invariant 0 <= k <= |orders|
      invariant forall i :: 0 <= i < k ==>
                  orders[i].orderId in PickedIds(route, orders, |route|, 0)
                  && orders[i].orderId in DroppedIds(route, orders, |route|, 0)
    {
      var id := orders[k].orderId;
      assert id in IdsUpTo(orders, |orders|);
      if !picked[id] || !delivered[id] {
        return false;
      }
      k := k + 1;
    }
    return true;
  }

  /** No two orders share an id. */
  predicate DistinctIds(orders: seq<Order>)
  {
    forall i, j :: 0 <= i < j < |orders| ==> orders[i].orderId != orders[j].orderId
  }

  /** With distinct ids, order `j`'s id is matched exactly when one of its
      own visits comes before the event. */
  lemma IdMatch(route: seq<int>, orders: seq<Order>, j: int, p: int, k: int)
    requires DistinctIds(orders) && 0 <= j < |orders|
    ensures orders[j].orderId in PickedIds(route, orders, p, k) <==>
              exists q :: 0 <= q < |route| && Before(q, j, p, k) && route[q] == orders[j].pickup
    ensures orders[j].orderId in DroppedIds(route, orders, p, k) <==>
              exists q :: 0 <= q < |route| && Before(q, j, p, k) && route[q] == orders[j].dropoff
  {
    var x := orders[j].orderId;
    if x in PickedIds(route, orders, p, k) {
      var q, k' :| 0 <= q < |route| && 0 <= k' < |orders| && Before(q, k', p, k)
                   && route[q] == orders[k'].pickup && x == orders[k'].orderId;
      assert k' == j;
    }
    if x in DroppedIds(route, orders, p, k) {
      var q, k' :| 0 <= q < |route| && 0 <= k' < |orders| && Before(q, k', p, k)
                   && route[q] == orders[k'].dropoff && x == orders[k'].orderId;
      assert k' == j;
    }
  }

  /** A visit of order `j`'s pickup at or before position `p`. */
  predicate PickedBy(route: seq<int>, o: Order, p: int)
  {
    exists q :: 0 <= q <= p && q < |route| && route[q] == o.pickup
  }

  /** With distinct order ids the check reads order by order: the route
      reaches the pickup, reaches the dropoff, and never reaches the
      dropoff before it has reached the pickup (a node that is both counts
      as the pickup first). With no orders every route passes. */
  lemma ValidRouteDistinct(route: seq<int>, orders: seq<Order>)
    requires DistinctIds(orders)
    ensures ValidRoute(route, orders) <==>
              forall j :: 0 <= j < |orders| ==>
                PickedBy(route, orders[j], |route|)
                && (exists p :: 0 <= p < |route| && route[p] == orders[j].dropoff)
                && (forall p :: 0 <= p < |route| && route[p] == orders[j].dropoff ==> PickedBy(route, orders[j], p))
    ensures |orders| == 0 ==> ValidRoute(route, orders)
  {
    forall j | 0 <= j < |orders|
      ensures orders[j].orderId in PickedIds(route, orders, |route|, 0) <==> PickedBy(route, orders[j], |route|)
      ensures orders[j].orderId in DroppedIds(route, orders, |route|, 0) <==>
                exists p :: 0 <= p < |route| && route[p] == orders[j].dropoff
    {
      IdMatch(route, orders, j, |route|, 0);
      if PickedBy(route, orders[j], |route|) {
        var q :| 0 <= q <= |route| && q < |route| && route[q] == orders[j].pickup;
        assert Before(q, j, |route|, 0);
      }
    }
    forall p, j | 0 <= p < |route| && 0 <= j < |orders|
      ensures Premature(route, orders, p, j) <==> route[p] == orders[j].dropoff && !PickedBy(route, orders[j], p)
    {
      IdMatch(route, orders, j, p, j + 1);
      if PickedBy(route, orders[j], p) {
        var q :| 0 <= q <= p && q < |route| && route[q] == orders[j].pickup;
        assert Before(q, j, p, j + 1);
      }
    }
  }

  // ---------------------------------------------------------------------
  // greedy_route

  /** Order `i` still has a stop to make: its pickup, or its dropoff once
      picked up. */
  predicate Open(picked: seq<bool>, delivered: seq<bool>, i: int)
    requires 0 <= i < |picked| && |delivered| == |picked|
  {
    !picked[i] || !delivered[i]
  }

  /** The stop order `i` would make next. */
  function StopOf(orders: seq<Order>, picked: seq<bool>, i: int): int
    requires 0 <= i < |orders| == |picked|
  {
    if !picked[i] then orders[i].pickup else orders[i].dropoff
  }

  /** One round's scan of `greedy_route`: the first open order whose next
      stop is nearest under strict `<`, or -1 when every open order's
      stop is at 1e18 or more. */
  method NextStop(t: Table, orders: seq<Order>, current: int, picked: seq<bool>, delivered: seq<bool>)
    returns (bestIdx: int, bestNode: int, isPickup: bool)
    requires TableOk(t) && |picked| == |orders| && |delivered| == |orders|
    ensures -1 <= bestIdx < |orders|
    ensures bestIdx == -1 <==>
              forall i :: 0 <= i < |orders| && Open(picked, delivered, i) ==>
                ShortestTime(t, current, StopOf(orders, picked, i)) >= SENTINEL
    ensures bestIdx >= 0 ==>
              Open(picked, delivered, bestIdx) && isPickup == !picked[bestIdx]
              && bestNode == StopOf(orders, picked, bestIdx)
              && ShortestTime(t, current, bestNode) < SENTINEL
              && (forall i :: 0 <= i < |orders| && Open(picked, delivered, i) ==>
                    ShortestTime(t, current, bestNode) <= ShortestTime(t, current, StopOf(orders, picked, i)))
              && (forall i :: 0 <= i < bestIdx && Open(picked, delivered, i) ==>
                    ShortestTime(t, current, bestNode) < ShortestTime(t, current, StopOf(orders, picked, i)))
  {
    var best := SENTINEL;
    bestIdx, bestNode, isPickup := -1, -1, true;
    var i := 0;
    while i < |orders|
      invariant 0 <= i <= |orders| && -1 <= bestIdx < i
      invariant bestIdx == -1 ==> best == SENTINEL
      invariant bestIdx >= 0 ==>
                  Open(picked, delivered, bestIdx) && isPickup == !picked[bestIdx]
                  && bestNode == StopOf(orders, picked, bestIdx)
                  && best == ShortestTime(t, current, bestNode) && best < SENTINEL
                  && (forall k :: 0 <= k < bestIdx && Open(picked, delivered, k) ==>
                        best < ShortestTime(t, current, StopOf(orders, picked, k)))
      invariant forall k :: 0 <= k < i && Open(picked, delivered, k) ==>
                  best <= ShortestTime(t, current, StopOf(orders, picked, k))
    {
      if !picked[i] {
        var d := ShortestTime(t, current, orders[i].pickup);
        if d < best {
          best, bestNode, bestIdx, isPickup := d, orders[i].pickup, i, true;
        }
      } else if picked[i] && !delivered[i] {
        var d := ShortestTime(t, current, orders[i].dropoff);
        if d < best {
          best, bestNode, bestIdx, isPickup := d, orders[i].dropoff, i, false;
        }
      }
      i := i + 1;
    }
  }

  /** Some order picks up or drops off at `x`. */
  predicate IsStop(orders: seq<Order>, x: int)
  {
    exists i :: 0 <= i < |orders| && (x == orders[i].pickup || x == orders[i].dropoff)
  }

  /** The greedy log so far: distinct `(order, isPickup)` steps, a dropoff
      step only after the same order's pickup step. */
  ghost predicate StepsOk(n: int, steps: seq<(int, bool)>)
  {
    Distinct(steps)
    && (forall k :: 0 <= k < |steps| ==> 0 <= steps[k].0 < n)
    && (forall k :: 0 <= k < |steps| && !steps[k].1 ==> (steps[k].0, true) in steps[..k])
  }

  /** The flag vectors are what the log says. */
  ghost predicate FlagsOf(steps: seq<(int, bool)>, picked: seq<bool>, delivered: seq<bool>)
  {
    |picked| == |delivered|
    && (forall i :: 0 <= i < |picked| ==> (picked[i] <==> (i, true) in steps))
    && (forall i :: 0 <= i < |delivered| ==> (delivered[i] <==> (i, false) in steps))
  }

  /** No order left open by the log has a next stop below 1e18 from `cur`. */
  ghost predicate Stuck(t: Table, orders: seq<Order>, steps: seq<(int, bool)>, cur: int)
    requires TableOk(t)
  {
    forall i :: 0 <= i < |orders| && !((i, true) in steps && (i, false) in steps) ==>
      ShortestTime(t, cur, if (i, true) !in steps then orders[i].pickup else orders[i].dropoff) >= SENTINEL
  }

  /** The state of `greedy_route` between rounds. */
  ghost predicate GreedyInv(orders: seq<Order>, depot: int, route: seq<int>, current: int,
                            picked: seq<bool>, delivered: seq<bool>, steps: seq<(int, bool)>)
  {
    |picked| == |orders| && FlagsOf(steps, picked, delivered) && StepsOk(|orders|, steps)
    && RouteOk(orders, depot, route, current, |steps|)
  }

  /** The route starts at the depot, ends at the current node, visits only
      stops and has at most one node per logged step besides the depot. */
  ghost predicate RouteOk(orders: seq<Order>, depot: int, route: seq<int>, current: int, n: int)
  {
    |route| >= 1 && route[0] == depot && |route| <= 1 + n && current == route[|route| - 1]
    && (forall p :: 1 <= p < |route| ==> IsStop(orders, route[p]))
  }

  lemma RouteSnoc(orders: seq<Order>, depot: int, route: seq<int>, current: int, n: int, x: int)
    requires RouteOk(orders, depot, route, current, n) && IsStop(orders, x)
    ensures RouteOk(orders, depot, route + [x], x, n + 1)
    ensures RouteOk(orders, depot, route, current, n + 1)
  {
  }

  /** With no reachable open stop, the driver is stuck. */
  lemma StuckWhen(t: Table, orders: seq<Order>, steps: seq<(int, bool)>, picked: seq<bool>,
                  delivered: seq<bool>, current: int)
    requires TableOk(t) && |picked| == |orders| && FlagsOf(steps, picked, delivered)
    requires forall i :: 0 <= i < |orders| && Open(picked, delivered, i) ==>
               ShortestTime(t, current, StopOf(orders, picked, i)) >= SENTINEL
    ensures Stuck(t, orders, steps, current)
  {
    forall i | 0 <= i < |orders| && !((i, true) in steps && (i, false) in steps)
      ensures Open(picked, delivered, i)
    {
    }
  }

  /** Every step of the log names an order. */
  predicate StepIdsOk(n: int, steps: seq<(int, bool)>)
  {
    forall k :: 0 <= k < |steps| ==> 0 <= steps[k].0 < n
  }

  /** The stop a step makes. */
  function StepStop(orders: seq<Order>, step: (int, bool)): int
    requires 0 <= step.0 < |orders|
  {
    if step.1 then orders[step.0].pickup else orders[step.0].dropoff
  }

  /** The route a log builds from the depot: each step's stop is appended
      unless the driver is already there, and the stop of an order whose
      pickup and dropoff coincide is appended anyway. */
  function RouteOfSteps(orders: seq<Order>, depot: int, steps: seq<(int, bool)>): (r: seq<int>)
    requires StepIdsOk(|orders|, steps)
    ensures |r| >= 1 && r[0] == depot
    decreases |steps|
  {
    if |steps| == 0 then [depot]
    else
      var r := RouteOfSteps(orders, depot, steps[..|steps| - 1]);
      var st := steps[|steps| - 1];
      var x := StepStop(orders, st);
      if x != r[|r| - 1] || orders[st.0].pickup == orders[st.0].dropoff then r + [x] else r
  }

  /** Order `i` still has a stop to make after the log `s`. */
  predicate OpenAfter(s: seq<(int, bool)>, i: int)
  {
    !((i, true) in s && (i, false) in s)
  }

  /** The stop order `i` would make next after the log `s`. */
  function NextFor(orders: seq<Order>, s: seq<(int, bool)>, i: int): int
    requires 0 <= i < |orders|
  {
    if (i, true) !in s then orders[i].pickup else orders[i].dropoff
  }

  /** Step `k` of the log is that round's greedy choice: from where the
      route then ended, an open order whose next stop is below 1e18, no
      farther than any open order's and strictly nearer than every open
      order before it, with its pickup chosen before its dropoff. */
  ghost predicate ChoiceAt(t: Table, orders: seq<Order>, depot: int, steps: seq<(int, bool)>, k: int)
    requires TableOk(t) && StepIdsOk(|orders|, steps) && 0 <= k < |steps|
  {
    var s := steps[..k];
    assert StepIdsOk(|orders|, s) by {
      assert forall j :: 0 <= j < k ==> s[j] == steps[j];
    }
    var r := RouteOfSteps(orders, depot, s);
    var pos := r[|r| - 1];
    var b := steps[k].0;
    OpenAfter(s, b) && steps[k].1 == ((b, true) !in s)
    && ShortestTime(t, pos, NextFor(orders, s, b)) < SENTINEL
    && (forall i :: 0 <= i < |orders| && OpenAfter(s, i) ==>
          ShortestTime(t, pos, NextFor(orders, s, b)) <= ShortestTime(t, pos, NextFor(orders, s, i)))
    && (forall i :: 0 <= i < b && OpenAfter(s, i) ==>
          ShortestTime(t, pos, NextFor(orders, s, b)) < ShortestTime(t, pos, NextFor(orders, s, i)))
  }

  /** The route is the one the log builds, and every logged step was the
      greedy choice of its round. */
  ghost predicate GreedyLog(t: Table, orders: seq<Order>, depot: int, route: seq<int>, steps: seq<(int, bool)>)
    requires TableOk(t)
  {
    StepIdsOk(|orders|, steps) && route == RouteOfSteps(orders, depot, steps)
    && forall k :: 0 <= k < |steps| ==> ChoiceAt(t, orders, depot, steps, k)
  }

  /** Logging a round's choice keeps the earlier choices and makes the new
      one a greedy choice too. */
  lemma LogChoice(t: Table, orders: seq<Order>, depot: int, route0: seq<int>, steps0: seq<(int, bool)>,
                  picked: seq<bool>, delivered: seq<bool>, b: int, isPickup: bool, bestNode: int, route: seq<int>)
    requires TableOk(t) && GreedyLog(t, orders, depot, route0, steps0)
    requires |picked| == |orders| && FlagsOf(steps0, picked, delivered)
    requires 0 <= b < |orders| && Open(picked, delivered, b) && isPickup == !picked[b]
    requires bestNode == StopOf(orders, picked, b)
    requires var cur := route0[|route0| - 1];
             ShortestTime(t, cur, bestNode) < SENTINEL
             && (forall i :: 0 <= i < |orders| && Open(picked, delivered, i) ==>
                   ShortestTime(t, cur, bestNode) <= ShortestTime(t, cur, StopOf(orders, picked, i)))
             && (forall i :: 0 <= i < b && Open(picked, delivered, i) ==>
                   ShortestTime(t, cur, bestNode) < ShortestTime(t, cur, StopOf(orders, picked, i)))
    requires route == if bestNode != route0[|route0| - 1] || orders[b].pickup == orders[b].dropoff
                      then route0 + [bestNode] else route0
    ensures GreedyLog(t, orders, depot, route, steps0 + [(b, isPickup)])
  {
    var s' := steps0 + [(b, isPickup)];
    assert s'[..|steps0|] == steps0;
    assert StepIdsOk(|orders|, s');
    assert StepStop(orders, (b, isPickup)) == bestNode;
    assert route == RouteOfSteps(orders, depot, s');
    forall i | 0 <= i < |orders|
      ensures OpenAfter(steps0, i) == Open(picked, delivered, i)
      ensures NextFor(orders, steps0, i) == StopOf(orders, picked, i)
    {
    }
    forall k | 0 <= k < |s'|
      ensures ChoiceAt(t, orders, depot, s', k)
    {
      if k < |steps0| {
        ChoiceKept(t, orders, depot, steps0, s', k);
      } else {
        assert s'[..k] == steps0 && s'[k] == (b, isPickup);
      }
    }
  }

  /** A logged choice stays a greedy choice when the log grows. */
  lemma ChoiceKept(t: Table, orders: seq<Order>, depot: int, steps: seq<(int, bool)>, steps': seq<(int, bool)>, k: int)
    requires TableOk(t) && StepIdsOk(|orders|, steps) && StepIdsOk(|orders|, steps')
    requires 0 <= k < |steps| <= |steps'| && steps'[..|steps|] == steps
    requires ChoiceAt(t, orders, depot, steps, k)
    ensures ChoiceAt(t, orders, depot, steps', k)
  {
    assert steps'[..k] == steps[..k] && steps'[k] == steps[k];
  }

  /** One round of `greedy_route`: go to the nearest next stop, appending
      it to the route unless the driver is already there (an order whose
      pickup and dropoff coincide is appended anyway). */
  method GreedyStep(t: Table, orders: seq<Order>, depot: int, route0: seq<int>, current0: int,
                    picked0: seq<bool>, delivered0: seq<bool>, ghost steps0: seq<(int, bool)>)
    returns (stop: bool, route: seq<int>, current: int, picked: seq<bool>, delivered: seq<bool>,
             ghost steps: seq<(int, bool)>)
    requires TableOk(t) && GreedyInv(orders, depot, route0, current0, picked0, delivered0, steps0)
    requires GreedyLog(t, orders, depot, route0, steps0)
    ensures GreedyInv(orders, depot, route, current, picked, delivered, steps)
    ensures GreedyLog(t, orders, depot, route, steps)
    ensures stop ==> steps == steps0 && route == route0 && Stuck(t, orders, steps, current)
    ensures !stop ==> |steps| == |steps0| + 1
  {
    route, current, picked, delivered, steps := route0, current0, picked0, delivered0, steps0;
    var bestIdx, bestNode, isPickup := NextStop(t, orders, current, picked, delivered);
    if bestIdx == -1 {
      stop := true;
      StuckWhen(t, orders, steps, picked, delivered, current);
    } else {
      stop := false;
      assert IsStop(orders, bestNode);
      RouteSnoc(orders, depot, route, current, |steps|, bestNode);
      if bestNode != current || orders[bestIdx].pickup == orders[bestIdx].dropoff {
        route := route + [bestNode];
        current := bestNode;
      }
      LogChoice(t, orders, depot, route0, steps, picked, delivered, bestIdx, isPickup, bestNode, route);
      LogStep(|orders|, steps, picked, delivered, bestIdx, isPickup);
      if isPickup {
        picked := picked[bestIdx := true];
      } else {
        delivered := delivered[bestIdx := true];
      }
      steps := steps + [(bestIdx, isPickup)];
    }
  }

  /** Logging the chosen stop keeps the log well formed and in step with
      the flags. */
  lemma LogStep(n: int, steps: seq<(int, bool)>, picked: seq<bool>, delivered: seq<bool>, idx: int, isPickup: bool)
    requires |picked| == n && FlagsOf(steps, picked, delivered) && StepsOk(n, steps)
    requires 0 <= idx < n && Open(picked, delivered, idx) && isPickup == !picked[idx]
    ensures StepsOk(n, steps + [(idx, isPickup)])
    ensures isPickup ==> FlagsOf(steps + [(idx, isPickup)], picked[idx := true], delivered)
    ensures !isPickup ==> FlagsOf(steps + [(idx, isPickup)], picked, delivered[idx := true])
  {
    var s' := steps + [(idx, isPickup)];
    assert (idx, isPickup) !in steps;
    assert s'[..|steps|] == steps;
    forall k | 0 <= k < |s'| && !s'[k].1
      ensures (s'[k].0, true) in s'[..k]
    {
      if k < |steps| {
        assert s'[..k] == steps[..k];
      } else {
        assert (idx, true) in steps;
      }
    }
  }

  /** `greedy_route(orders, depot)`, with the log of the stops it chose. */
  method GreedyRoute(t: Table, orders: seq<Order>, depot: int) returns (route: seq<int>, ghost steps: seq<(int, bool)>)
    requires TableOk(t)
    ensures |orders| == 0 ==> route == [depot]
    ensures |route| >= 1 && route[0] == depot && |route| <= 1 + |steps|
    ensures |steps| <= 2 * |orders| && StepsOk(|orders|, steps)
    ensures forall p :: 1 <= p < |route| ==> IsStop(orders, route[p])
    ensures |steps| < 2 * |orders| ==> Stuck(t, orders, steps, route[|route| - 1])
    ensures GreedyLog(t, orders, depot, route, steps)
  {
    steps := [];
    if |orders| == 0 {
      return [depot], steps;
    }
    route := [depot];
    var picked := seq(|orders|, _ => false);
    var delivered := seq(|orders|, _ => false);
    var current := depot;
    var remaining := |orders| * 2;
    var stop := false;
    while remaining > 0 && !stop
      invariant 0 <= remaining && remaining + |steps| == 2 * |orders|
      invariant GreedyInv(orders, depot, route, current, picked, delivered, steps)
      invariant stop ==> Stuck(t, orders, steps, current)
      invariant GreedyLog(t, orders, depot, route, steps)
      decreases remaining + (if stop then 0 else 1)
    {
      stop, route, current, picked, delivered, steps := GreedyStep(t, orders, depot, route, current, picked, delivered, steps);
      if !stop {
        remaining := remaining - 1;
      }
    }
    assert RouteOk(orders, depot, route, current, |steps|);
  }

  // ---------------------------------------------------------------------
  // route_cost and two_opt_improve

  /** The table time along a route, hop by hop. */
  function RouteCostOf(t: Table, route: seq<int>): real
    requires TableOk(t)
    decreases |route|
  {
    if |route| <= 1 then 0.0
    else RouteCostOf(t, route[..|route| - 1]) + ShortestTime(t, route[|route| - 2], route[|route| - 1])
  }

  /** `route_cost(route)`. */
  method RouteCost(t: Table, route: seq<int>) returns (c: real)
    requires TableOk(t)
    ensures c == RouteCostOf(t, route)
  {
    if |route| <= 1 {
      return 0.0;
    }
    c := 0.0;
    var i := 0;
    while i < |route| - 1
      invariant 0 <= i <= |route| - 1
      invariant c == RouteCostOf(t, route[..i + 1])
    {
      assert route[..i + 2][..i + 1] == route[..i + 1];
      c := c + ShortestTime(t, route[i], route[i + 1]);
      i := i + 1;
    }
    assert route[..i + 1] == route;
  }

  /** The cost of a joined route is the two costs plus the joining hop. */
  lemma {:induction false} RouteCostJoin(t: Table, a: seq<int>, b: seq<int>)
    requires TableOk(t) && |a| >= 1 && |b| >= 1
    ensures RouteCostOf(t, a + b) == RouteCostOf(t, a) + ShortestTime(t, a[|a| - 1], b[0]) + RouteCostOf(t, b)
    decreases |b|
  {
    if |b| == 1 {
      assert (a + b)[..|a + b| - 1] == a;
    } else {
      var b' := b[..|b| - 1];
      RouteCostJoin(t, a, b');
      assert (a + b)[..|a + b| - 1] == a + b';
      assert b'[0] == b[0];
    }
  }

  /** Every table entry is a non-negative time. */
  predicate TableNonNeg(t: Table)
  {
    forall i, c :: 0 <= i < |t.dist| && 0 <= c < |t.dist[i]| ==> t.dist[i][c] >= 0.0
  }

  lemma {:induction false} RouteCostNonNeg(t: Table, route: seq<int>)
    requires TableOk(t) && TableNonNeg(t)
    ensures RouteCostOf(t, route) >= 0.0
    decreases |route|
  {
    if |route| > 1 {
      RouteCostNonNeg(t, route[..|route| - 1]);
    }
  }

  /** `reverse(route.begin() + i, route.begin() + j + 1)` on a copy. */
  function ReverseSpan(route: seq<int>, i: int, j: int): (r: seq<int>)
    requires 0 <= i <= j < |route|
    ensures |r| == |route|
  {
    route[..i] + Reverse(route[i..j + 1]) + route[j + 1..]
  }

  lemma {:induction false} ReversePerm<T>(s: seq<T>)
    ensures multiset(Reverse(s)) == multiset(s)
    decreases |s|
  {
    if |s| > 0 {
      ReversePerm(s[1..]);
      assert s == [s[0]] + s[1..];
    }
  }

  /** A 2-opt move keeps the length, the multiset of nodes and, strictly
      inside the route, both end nodes. */
  lemma ReverseSpanSpec(route: seq<int>, i: int, j: int)
    requires 1 <= i <= j <= |route| - 2
    ensures multiset(ReverseSpan(route, i, j)) == multiset(route)
    ensures ReverseSpan(route, i, j)[0] == route[0]
    ensures ReverseSpan(route, i, j)[|route| - 1] == route[|route| - 1]
  {
    ReversePerm(route[i..j + 1]);
    assert route == route[..i] + route[i..j + 1] + route[j + 1..];
  }

  /** Reversing `route[i..j]` gives a valid route cheaper by more than 1e-9. */
  ghost predicate Improving(t: Table, orders: seq<Order>, route: seq<int>, i: int, j: int)
    requires TableOk(t)
  {
    1 <= i < j <= |route| - 2
    && ValidRoute(ReverseSpan(route, i, j), orders)
    && RouteCostOf(t, ReverseSpan(route, i, j)) < RouteCostOf(t, route) - 0.000000001
  }

  /** No 2-opt move improves `route`. */
  ghost predicate LocallyOptimal(t: Table, orders: seq<Order>, route: seq<int>)
    requires TableOk(t)
  {
    forall i, j :: !Improving(t, orders, route, i, j)
  }

  /** The inner loop of a round: the first improving move `(i, j)` in order
      of `j`, if there is one. */
  method FindMoveFrom(t: Table, orders: seq<Order>, route: seq<int>, i: int, bestCost: real)
    returns (found: bool, next: seq<int>, ghost mj: int)
    requires TableOk(t) && 1 <= i < |route| - 2 && bestCost == RouteCostOf(t, route)
    ensures found ==> Improving(t, orders, route, i, mj) && next == ReverseSpan(route, i, mj)
    ensures found ==> forall j :: j < mj ==> !Improving(t, orders, route, i, j)
    ensures !found ==> forall j :: !Improving(t, orders, route, i, j)
  {
    found, next, mj := false, route, 0;
    var j := i + 1;
    while j < |route| - 1 && !found
      invariant i + 1 <= j <= |route| - 1
      invariant !found ==> forall j' :: j' < j ==> !Improving(t, orders, route, i, j')
      invariant found ==> Improving(t, orders, route, i, mj) && next == ReverseSpan(route, i, mj)
                          && forall j' :: j' < mj ==> !Improving(t, orders, route, i, j')
    {
      var cand := ReverseSpan(route, i, j);
      var valid := IsValidRoute(cand, orders);
      if valid {
        var newCost := RouteCost(t, cand);
        if newCost < bestCost - 0.000000001 {
          found, next, mj := true, cand, j;
        }
      }
      j := j + 1;
    }
  }

  /** One round of `two_opt_improve`: the first improving move in order of
      `i`, then `j`, if there is one. */
  method FindMove(t: Table, orders: seq<Order>, route: seq<int>)
    returns (found: bool, next: seq<int>, ghost mi: int, ghost mj: int)
    requires TableOk(t)
    ensures found ==> Improving(t, orders, route, mi, mj) && next == ReverseSpan(route, mi, mj)
    ensures found ==> forall i, j :: Before(i, j, mi, mj) ==> !Improving(t, orders, route, i, j)
    ensures !found ==> next == route && LocallyOptimal(t, orders, route)
  {
    var bestCost := RouteCost(t, route);
    found, next, mi, mj := false, route, 0, 0;
    var i := 1;
    while i < |route| - 2 && !found
      invariant 1 <= i
      invariant !found ==> next == route && forall i', j :: i' < i ==> !Improving(t, orders, route, i', j)
      invariant found ==> Improving(t, orders, route, mi, mj) && next == ReverseSpan(route, mi, mj)
                          && forall i', j :: Before(i', j, mi, mj) ==> !Improving(t, orders, route, i', j)
    {
      var f, n, j := FindMoveFrom(t, orders, route, i, bestCost);
      if f {
        found, next, mi, mj := true, n, i, j;
      }
      i := i + 1;
    }
  }

  /** `two_opt_improve(route, orders)`, with the number of moves made. */
  method TwoOptImprove(t: Table, orders: seq<Order>, route0: seq<int>) returns (route: seq<int>, ghost moves: nat)
    requires TableOk(t)
    ensures |route0| <= 3 ==> route == route0
    ensures |route| == |route0| && multiset(route) == multiset(route0)
    ensures |route0| >= 1 ==> route[0] == route0[0] && route[|route| - 1] == route0[|route0| - 1]
    ensures moves <= 200 && (moves == 0 ==> route == route0) && (moves > 0 ==> ValidRoute(route, orders))
    ensures RouteCostOf(t, route) <= RouteCostOf(t, route0) - (moves as real) * 0.000000001
    ensures moves < 200 ==> LocallyOptimal(t, orders, route)
  {
    route, moves := route0, 0;
    if |route| <= 3 {
      return;
    }
    var improved := true;
    var iterations := 0;
    while improved && iterations < 200
      invariant 0 <= moves <= iterations <= 200
      invariant improved ==> moves == iterations
      invariant !improved ==> LocallyOptimal(t, orders, route)
      invariant |route| == |route0| && multiset(route) == multiset(route0)
      invariant route[0] == route0[0] && route[|route| - 1] == route0[|route0| - 1]
      invariant (moves == 0 ==> route == route0) && (moves > 0 ==> ValidRoute(route, orders))
      invariant RouteCostOf(t, route) <= RouteCostOf(t, route0) - (moves as real) * 0.000000001
      decreases 200 - iterations
    {
      improved := false;
      iterations := iterations + 1;
      var found, next;
      ghost var mi, mj;
      found, next, mi, mj := FindMove(t, orders, route);
      if found {
        ReverseSpanSpec(route, mi, mj);
        route := next;
        moves := moves + 1;
        improved := true;
      }
    }
  }

  // ---------------------------------------------------------------------
  // balanced_cluster

  /** An order whose pickup has a table column, with that column's polar
      coordinates. */
  datatype OrderInfo = OrderInfo(order: Order, r: real, a: real)

  /** The orders whose pickup has a column, in input order. */
  function Kept(t: Table, orders: seq<Order>): seq<Order>
    decreases |orders|
  {
    if |orders| == 0 then []
    else
      var o := orders[|orders| - 1];
      Kept(t, orders[..|orders| - 1]) + (if o.pickup in t.colOf then [o] else [])
  }

  /** The orders of a list of order records. */
  function Orders(info: seq<OrderInfo>): (os: seq<Order>)
    ensures |os| == |info|
    ensures forall k :: 0 <= k < |info| ==> os[k] == info[k].order
    decreases |info|
  {
    if |info| == 0 then [] else Orders(info[..|info| - 1]) + [info[|info| - 1].order]
  }

  /** Filing one more order adds exactly that order to the prefix's orders. */
  lemma OrdersSnoc(info: seq<OrderInfo>, k: nat)
    requires k < |info|
    ensures multiset(Orders(info[..k + 1])) == multiset(Orders(info[..k])) + multiset{info[k].order}
  {
    assert info[..k + 1][..k] == info[..k];
  }

  /** The concatenation of a sequence of lists. */
  function FlatRow<T>(row: seq<seq<T>>): seq<T>
    decreases |row|
  {
    if |row| == 0 then [] else FlatRow(row[..|row| - 1]) + row[|row| - 1]
  }

  /** The concatenation of a grid of lists, row by row. */
  function FlatGrid<T>(grid: seq<seq<seq<T>>>): seq<T>
    decreases |grid|
  {
    if |grid| == 0 then [] else FlatGrid(grid[..|grid| - 1]) + FlatRow(grid[|grid| - 1])
  }

  lemma {:induction false} FlatJoin<T>(a: seq<seq<T>>, b: seq<seq<T>>)
    ensures FlatRow(a + b) == FlatRow(a) + FlatRow(b)
    decreases |b|
  {
    if |b| == 0 {
      JoinNone(a, b);
      JoinNone(FlatRow(a), FlatRow(b));
    } else {
      var b', x := b[..|b| - 1], b[|b| - 1];
      FlatJoin(a, b');
      JoinDropLast(a, b);
      Assoc(FlatRow(a), FlatRow(b'), x);
    }
  }

  lemma {:induction false} GridJoin<T>(a: seq<seq<seq<T>>>, b: seq<seq<seq<T>>>)
    ensures FlatGrid(a + b) == FlatGrid(a) + FlatGrid(b)
    decreases |b|
  {
    if |b| == 0 {
      JoinNone(a, b);
      JoinNone(FlatGrid(a), FlatGrid(b));
    } else {
      var b', x := b[..|b| - 1], FlatRow(b[|b| - 1]);
      GridJoin(a, b');
      JoinDropLast(a, b);
      Assoc(FlatGrid(a), FlatGrid(b'), x);
    }
  }

  lemma FlatOne<T>(x: seq<T>)
    ensures FlatRow([x]) == x
  {
    assert [x][..0] == [];
  }

  lemma GridOne<T>(x: seq<seq<T>>)
    ensures FlatGrid([x]) == FlatRow(x)
  {
    assert [x][..0] == [];
  }

  lemma RowSplit<T>(row: seq<seq<T>>, d: int)
    requires 0 <= d < |row|
    ensures FlatRow(row) == FlatRow(row[..d]) + row[d] + FlatRow(row[d + 1..])
  {
    var a, m, b := row[..d], [row[d]], row[d + 1..];
    SplitAround(row, d);
    FlatJoin(a, m + b);
    FlatJoin(m, b);
    FlatOne(row[d]);
    Assoc(FlatRow(a), row[d], FlatRow(b));
  }

  lemma GridSplit<T>(grid: seq<seq<seq<T>>>, s: int)
    requires 0 <= s < |grid|
    ensures FlatGrid(grid) == FlatGrid(grid[..s]) + FlatRow(grid[s]) + FlatGrid(grid[s + 1..])
  {
    var a, m, b := grid[..s], [grid[s]], grid[s + 1..];
    SplitAround(grid, s);
    GridJoin(a, m + b);
    GridJoin(m, b);
    GridOne(grid[s]);
    Assoc(FlatGrid(a), FlatRow(grid[s]), FlatGrid(b));
  }

  /** Appending to one list adds exactly the appended items. */
  lemma AppendAt<T>(row: seq<seq<T>>, d: int, xs: seq<T>)
    requires 0 <= d < |row|
    ensures multiset(FlatRow(row[d := row[d] + xs])) == multiset(FlatRow(row)) + multiset(xs)
  {
    var row' := row[d := row[d] + xs];
    RowSplit(row, d);
    RowSplit(row', d);
    UpdateSlices(row, d, row[d] + xs);
  }

  lemma GridAppendAt<T>(grid: seq<seq<seq<T>>>, s: int, z: int, x: T)
    requires 0 <= s < |grid| && 0 <= z < |grid[s]|
    ensures multiset(FlatGrid(grid[s := grid[s][z := grid[s][z] + [x]]]))
            == multiset(FlatGrid(grid)) + multiset{x}
  {
    var row' := grid[s][z := grid[s][z] + [x]];
    var grid' := grid[s := row'];
    AppendAt(grid[s], z, [x]);
    GridSplit(grid, s);
    GridSplit(grid', s);
    UpdateSlices(grid, s, row');
  }

  /** The cells handed out so far, in sector-then-zone order, lie inside
      the whole grid. */
  lemma HandedLe<T>(grid: seq<seq<seq<T>>>, s: int, z: int)
    requires 0 <= s < |grid| && 0 <= z <= |grid[s]|
    ensures multiset(FlatGrid(grid[..s])) + multiset(FlatRow(grid[s][..z])) <= multiset(FlatGrid(grid))
  {
    var row := grid[s];
    GridSplit(grid, s);
    TakeDrop(row, z);
    FlatJoin(row[..z], row[z..]);
  }

  /** One more list of a row adds that list. */
  lemma RowPrefixStep<T>(row: seq<seq<T>>, z: int)
    requires 0 <= z < |row|
    ensures FlatRow(row[..z + 1]) == FlatRow(row[..z]) + row[z]
  {
    TakeStep(row, z);
  }

  /** One more row of a grid adds that row. */
  lemma GridPrefixStep<T>(grid: seq<seq<seq<T>>>, s: int)
    requires 0 <= s < |grid|
    ensures FlatGrid(grid[..s + 1]) == FlatGrid(grid[..s]) + FlatRow(grid[s])
  {
    TakeStep(grid, s);
  }

  /** `(int)sqrt(n)`: the integer square root. */
  function ISqrt(n: nat): (r: nat)
    ensures r * r <= n < (r + 1) * (r + 1)
  {
    ISqrtFrom(n, 0)
  }

  function ISqrtFrom(n: nat, s: nat): (r: nat)
    requires s * s <= n
    ensures r * r <= n < (r + 1) * (r + 1)
    decreases n - s * s
  {
    if (s + 1) * (s + 1) > n then s else ISqrtFrom(n, s + 1)
  }

  /** `max(1, (int)sqrt(drivers))` angular sectors. */
  function Sectors(drivers: nat): (s: nat)
    ensures s >= 1
  {
    var r := ISqrt(drivers);
    if r < 1 then 1 else r
  }

  /** `(drivers + sectors - 1) / sectors` radial zones. */
  function Zones(drivers: nat): (z: nat)
  {
    (drivers + Sectors(drivers) - 1) / Sectors(drivers)
  }

  /** There are at least as many cells as drivers, and at least one zone
      when there is a driver. */
  lemma CellsEnough(drivers: nat)
    ensures Sectors(drivers) * Zones(drivers) >= drivers
    ensures drivers >= 1 ==> Zones(drivers) >= 1
  {
    var s := Sectors(drivers);
    var z := Zones(drivers);
    var m := (drivers + s - 1) % s;
    assert drivers + s - 1 == s * z + m && m < s;
  }

  /** Every record carries its pickup's radius and angle. */
  predicate InfoOk(t: Table, info: seq<OrderInfo>)
    requires TableOk(t)
  {
    forall k :: 0 <= k < |info| ==>
      info[k].order.pickup in t.colOf
      && info[k].r == t.radius[t.colOf[info[k].order.pickup]]
      && info[k].a == t.angle[t.colOf[info[k].order.pickup]]
  }

  /** The filtering loop of `balanced_cluster`. */
  method CollectInfo(t: Table, orders: seq<Order>) returns (info: seq<OrderInfo>)
    requires TableOk(t)
    ensures Orders(info) == Kept(t, orders)
    ensures InfoOk(t, info)
  {
    info := [];
    var i := 0;
    while i < |orders|
      invariant 0 <= i <= |orders|
      invariant Orders(info) == Kept(t, orders[..i])
      invariant InfoOk(t, info)
    {
      var o := orders[i];
      if o.pickup in t.colOf {
        var col := t.colOf[o.pickup];
        var oi := OrderInfo(o, t.radius[col], t.angle[col]);
        InfoSnoc(t, orders, i, info, oi);
        info := info + [oi];
      } else {
        KeptSkip(t, orders, i);
      }
      i := i + 1;
    }
    assert orders[..i] == orders;
  }

  /** Keeping order `i` extends the records by its own. */
  lemma InfoSnoc(t: Table, orders: seq<Order>, i: int, info: seq<OrderInfo>, oi: OrderInfo)
    requires TableOk(t) && 0 <= i < |orders| && orders[i].pickup in t.colOf
    requires Orders(info) == Kept(t, orders[..i]) && InfoOk(t, info)
    requires oi == OrderInfo(orders[i], t.radius[t.colOf[orders[i].pickup]], t.angle[t.colOf[orders[i].pickup]])
    ensures Orders(info + [oi]) == Kept(t, orders[..i + 1]) && InfoOk(t, info + [oi])
  {
    var p := orders[..i + 1];
    assert p[..i] == orders[..i] && p[i] == orders[i];
    assert Kept(t, p) == Kept(t, orders[..i]) + [orders[i]];
    assert (info + [oi])[..|info|] == info;
    assert Orders(info + [oi]) == Orders(info) + [oi.order];
    forall k | 0 <= k < |info| + 1
      ensures (info + [oi])[k].order.pickup in t.colOf
    {
      if k < |info| {
        assert (info + [oi])[k] == info[k];
      }
    }
  }

  /** An order whose pickup has no column is dropped. */
  lemma KeptSkip(t: Table, orders: seq<Order>, i: int)
    requires 0 <= i < |orders| && orders[i].pickup !in t.colOf
    ensures Kept(t, orders[..i + 1]) == Kept(t, orders[..i])
  {
    assert orders[..i + 1][..i] == orders[..i];
  }

  lemma FloorIndex(n: nat, z: nat, zones: nat)
    requires n >= 1 && z < zones
    ensures 0 <= (n * z) / zones < n
  {
    assert n * z <= n * (zones - 1) == n * zones - n;
    var q := (n * z) / zones;
    assert q * zones <= n * z;
    assert (n - q) * zones > 0;
  }

  /** The zone boundaries: 0, then the radii at the `z / zones` quantiles
      of the sorted radii, then 1e18. */
  method ZoneBounds(radii: seq<real>, zones: nat) returns (zb: seq<real>)
    requires |radii| >= 1 && zones >= 1
    ensures |zb| == zones + 1 && zb[0] == 0.0 && zb[zones] == SENTINEL
    ensures forall z :: 1 <= z < zones ==> 0 <= (|radii| * z) / zones < |radii| && zb[z] == radii[(|radii| * z) / zones]
  {
    zb := [0.0];
    var z := 1;
    while z < zones
      invariant 1 <= z <= zones && |zb| == z && zb[0] == 0.0
      invariant forall y :: 1 <= y < z ==> 0 <= (|radii| * y) / zones < |radii| && zb[y] == radii[(|radii| * y) / zones]
    {
      FloorIndex(|radii|, z, zones);
      zb := zb + [radii[(|radii| * z) / zones]];
      z := z + 1;
    }
    zb := zb + [SENTINEL];
  }

  /** `zone_boundaries[z] <= r < zone_boundaries[z + 1]`. */
  predicate InZone(zb: seq<real>, r: real, z: int)
    requires 0 <= z < |zb| - 1
  {
    zb[z] <= r < zb[z + 1]
  }

  /** The zone loop: the first zone whose bounds hold `r`, else zone 0. */
  method FindZone(zb: seq<real>, r: real, zones: nat) returns (zone: nat)
    requires zones >= 1 && |zb| == zones + 1
    ensures zone < zones
    ensures forall z :: 0 <= z < zone ==> !InZone(zb, r, z)
    ensures InZone(zb, r, zone) || (zone == 0 && forall z :: 0 <= z < zones ==> !InZone(zb, r, z))
  {
    var z := 0;
    while z < zones
      invariant 0 <= z <= zones
      invariant forall y :: 0 <= y < z ==> !InZone(zb, r, y)
    {
      if r >= zb[z] && r < zb[z + 1] {
        return z;
      }
      z := z + 1;
    }
    return 0;
  }

  /** Rows of `zones` empty lists, `sectors` of them. */
  predicate GridShape<T>(grid: seq<seq<seq<T>>>, sectors: nat, zones: nat)
  {
    |grid| == sectors && forall s :: 0 <= s < sectors ==> |grid[s]| == zones
  }

  /** Files one order into the cell of its angular sector and radial
      zone. The sector is the oracle `sectorOf`, which stands for the angle
      normalisation and the division by the sector size, clamped to the
      last sector as the code does. */
  method FileOrder(grid0: seq<seq<seq<Order>>>, oi: OrderInfo, sectors: nat, zones: nat, zb: seq<real>,
                   sectorOf: (real, nat) -> nat)
    returns (grid: seq<seq<seq<Order>>>)
    requires sectors >= 1 && zones >= 1 && |zb| == zones + 1 && GridShape(grid0, sectors, zones)
    ensures GridShape(grid, sectors, zones)
    ensures multiset(FlatGrid(grid)) == multiset(FlatGrid(grid0)) + multiset{oi.order}
  {
    var raw := sectorOf(oi.a, sectors);
    var sector := if raw < sectors - 1 then raw else sectors - 1;
    var zone := FindZone(zb, oi.r, zones);
    GridAppendAt(grid0, sector, zone, oi.order);
    grid := grid0[sector := grid0[sector][zone := grid0[sector][zone] + [oi.order]]];
  }

  /** An empty `sectors` by `zones` grid. */
  method NewGrid(sectors: nat, zones: nat) returns (grid: seq<seq<seq<Order>>>)
    ensures GridShape(grid, sectors, zones) && FlatGrid(grid) == []
  {
    grid := seq(sectors, _ => seq(zones, _ => []));
    EmptyGrid(grid);
  }

  /** The pass that files every order into its grid cell. */
  method BuildGrid(info: seq<OrderInfo>, sectors: nat, zones: nat, zb: seq<real>, sectorOf: (real, nat) -> nat)
    returns (grid: seq<seq<seq<Order>>>)
    requires sectors >= 1 && zones >= 1 && |zb| == zones + 1
    ensures GridShape(grid, sectors, zones)
    ensures multiset(FlatGrid(grid)) == multiset(Orders(info))
  {
    grid := NewGrid(sectors, zones);
    var k := 0;
    while k < |info|
      invariant 0 <= k <= |info| && GridShape(grid, sectors, zones)
      invariant multiset(FlatGrid(grid)) == multiset(Orders(info[..k]))
    {
      grid := FileOrder(grid, info[k], sectors, zones, zb, sectorOf);
      OrdersSnoc(info, k);
      k := k + 1;
    }
    assert info[..k] == info;
  }

  lemma {:induction false} EmptyGrid<T>(grid: seq<seq<seq<T>>>)
    requires forall s, z :: 0 <= s < |grid| && 0 <= z < |grid[s]| ==> grid[s][z] == []
    ensures FlatGrid(grid) == []
    decreases |grid|
  {
    if |grid| > 0 {
      EmptyGrid(grid[..|grid| - 1]);
      EmptyRow(grid[|grid| - 1]);
    }
  }

  lemma {:induction false} EmptyRow<T>(row: seq<seq<T>>)
    requires forall z :: 0 <= z < |row| ==> row[z] == []
    ensures FlatRow(row) == []
    decreases |row|
  {
    if |row| > 0 {
      EmptyRow(row[..|row| - 1]);
    }
  }

  /** Handing cell `z` of a row to cluster `d` adds that cell. */
  lemma HandCell<T>(clusters: seq<seq<T>>, d: int, base: multiset<T>, row: seq<seq<T>>, z: int)
    requires 0 <= d < |clusters| && 0 <= z < |row|
    requires multiset(FlatRow(clusters)) == base + multiset(FlatRow(row[..z]))
    ensures multiset(FlatRow(clusters[d := clusters[d] + row[z]])) == base + multiset(FlatRow(row[..z + 1]))
  {
    AppendAt(clusters, d, row[z]);
    RowPrefixStep(row, z);
  }

  /** One sector of the hand-out: the cells of sector `s` in zone order,
      each appended to the current driver's cluster, the driver advancing
      after a non-empty cell, until the drivers run out. */
  method HandRow(grid: seq<seq<seq<Order>>>, s: nat, zones: nat, clusters0: seq<seq<Order>>, d0: nat)
    returns (clusters: seq<seq<Order>>, d: nat, z: nat)
    requires s < |grid| && |grid[s]| == zones && d0 <= |clusters0|
    ensures |clusters| == |clusters0| && d0 <= d <= |clusters| && z <= zones
    ensures z < zones ==> d == |clusters|
    ensures multiset(FlatRow(clusters)) == multiset(FlatRow(clusters0)) + multiset(FlatRow(grid[s][..z]))
  {
    clusters, d, z := clusters0, d0, 0;
    EmptyRow(grid[s][..0]);
    while z < zones && d < |clusters|
      invariant 0 <= z <= zones && d0 <= d <= |clusters| && |clusters| == |clusters0|
      invariant multiset(FlatRow(clusters)) == multiset(FlatRow(clusters0)) + multiset(FlatRow(grid[s][..z]))
    {
      var cell := grid[s][z];
      HandCell(clusters, d, multiset(FlatRow(clusters0)), grid[s], z);
      clusters := clusters[d := clusters[d] + cell];
      if cell != [] {
        d := d + 1;
      }
      z := z + 1;
    }
  }

  /** After one sector the clusters hold the grid up to that sector while
      drivers remain, and never more than the grid. */
  lemma HandSector<T>(grid: seq<seq<seq<T>>>, s: int, z: int, d: int, drivers: int, m0: multiset<T>, m: multiset<T>)
    requires 0 <= s < |grid| && 0 <= z <= |grid[s]|
    requires z < |grid[s]| ==> d >= drivers
    requires m0 == multiset(FlatGrid(grid[..s]))
    requires m == m0 + multiset(FlatRow(grid[s][..z]))
    ensures d < drivers ==> m == multiset(FlatGrid(grid[..s + 1]))
    ensures m <= multiset(FlatGrid(grid))
  {
    HandedLe(grid, s, z);
    if z == |grid[s]| {
      TakeAll(grid[s]);
      GridPrefixStep(grid, s);
    }
  }

  /** The pass that hands whole cells to drivers, sector by sector and zone
      by zone, moving to the next driver after each non-empty cell and
      stopping once every driver has one. */
  method HandOut(grid: seq<seq<seq<Order>>>, sectors: nat, zones: nat, drivers: nat)
    returns (clusters: seq<seq<Order>>)
    requires GridShape(grid, sectors, zones)
    ensures |clusters| == drivers
    ensures multiset(FlatRow(clusters)) <= multiset(FlatGrid(grid))
  {
    clusters := seq(drivers, _ => []);
    EmptyRow(clusters);
    var d := 0;
    var s := 0;
    while s < sectors && d < drivers
      invariant 0 <= s <= sectors && 0 <= d <= drivers && |clusters| == drivers
      invariant d < drivers ==> multiset(FlatRow(clusters)) == multiset(FlatGrid(grid[..s]))
      invariant multiset(FlatRow(clusters)) <= multiset(FlatGrid(grid))
    {
      var z: nat;
      ghost var before := multiset(FlatRow(clusters));
      clusters, d, z := HandRow(grid, s, zones, clusters, d);
      HandSector(grid, s, z, d, drivers, before, multiset(FlatRow(clusters)));
      s := s + 1;
    }
    if s == sectors {
      TakeAll(grid);
    }
  }

  /** The order ids occurring in a list of orders. */
  function IdsOf(xs: seq<Order>): set<int>
  {
    set o | o in xs :: o.orderId
  }

  /** The `assigned_ids` pass over every cluster. */
  method AssignedIds(clusters: seq<seq<Order>>) returns (ids: set<int>)
    ensures ids == IdsOf(FlatRow(clusters))
  {
    ids := {};
    var d := 0;
    while d < |clusters|
      invariant 0 <= d <= |clusters|
      invariant ids == IdsOf(FlatRow(clusters[..d]))
    {
      var k := 0;
      while k < |clusters[d]|
        invariant 0 <= k <= |clusters[d]|
        invariant ids == IdsOf(FlatRow(clusters[..d]) + clusters[d][..k])
      {
        var xs := FlatRow(clusters[..d]) + clusters[d][..k];
        assert FlatRow(clusters[..d]) + clusters[d][..k + 1] == xs + [clusters[d][k]];
        IdsSnoc(xs, clusters[d][k]);
        ids := ids + {clusters[d][k].orderId};
        k := k + 1;
      }
      assert clusters[d][..k] == clusters[d];
      assert clusters[..d + 1][..d] == clusters[..d];
      d := d + 1;
    }
    assert clusters[..d] == clusters;
  }

  lemma IdsSnoc(xs: seq<Order>, o: Order)
    ensures IdsOf(xs + [o]) == IdsOf(xs) + {o.orderId}
  {
    forall x | x in IdsOf(xs + [o])
      ensures x in IdsOf(xs) + {o.orderId}
    {
      var y :| y in xs + [o] && y.orderId == x;
      if y != o {
        assert y in xs;
      }
    }
  }

  /** The orders of `xs` whose id is not in `ids`, in order. */
  function Leftover(xs: seq<Order>, ids: set<int>): seq<Order>
    decreases |xs|
  {
    if |xs| == 0 then []
    else
      var o := xs[|xs| - 1];
      Leftover(xs[..|xs| - 1], ids) + (if o.orderId in ids then [] else [o])
  }

  lemma {:induction false} LeftoverCount(xs: seq<Order>, ids: set<int>, o: Order)
    ensures multiset(Leftover(xs, ids))[o] == if o.orderId in ids then 0 else multiset(xs)[o]
    decreases |xs|
  {
    if |xs| > 0 {
      LeftoverCount(xs[..|xs| - 1], ids, o);
      assert xs == xs[..|xs| - 1] + [xs[|xs| - 1]];
    }
  }

  /** One more order record adds its order to the leftovers unless its id
      is assigned. */
  lemma LeftoverSnoc(info: seq<OrderInfo>, k: int, ids: set<int>)
    requires 0 <= k < |info|
    ensures Leftover(Orders(info[..k + 1]), ids)
            == Leftover(Orders(info[..k]), ids) + (if info[k].order.orderId in ids then [] else [info[k].order])
  {
    var xs := Orders(info[..k + 1]);
    assert xs[..|xs| - 1] == Orders(info[..k]);
  }

  /** One round-robin step: a leftover order goes to cluster `d`, any other
      order is skipped. */
  lemma RobinStep(clusters: seq<seq<Order>>, base: multiset<Order>, info: seq<OrderInfo>, k: int, ids: set<int>, d: int)
    requires 0 <= k < |info| && 0 <= d < |clusters|
    requires multiset(FlatRow(clusters)) == base + multiset(Leftover(Orders(info[..k]), ids))
    ensures var o := info[k].order;
            var next := if o.orderId in ids then clusters else clusters[d := clusters[d] + [o]];
            multiset(FlatRow(next)) == base + multiset(Leftover(Orders(info[..k + 1]), ids))
  {
    var o := info[k].order;
    var before := Leftover(Orders(info[..k]), ids);
    LeftoverSnoc(info, k, ids);
    if o.orderId !in ids {
      AppendAt(clusters, d, [o]);
      assert multiset(before + [o]) == multiset(before) + multiset([o]);
    } else {
      assert Leftover(Orders(info[..k + 1]), ids) == before + [];
      assert before + [] == before;
    }
  }

  /** The round-robin pass: each order of `info` whose id no cluster holds
      goes to cluster `round_robin % drivers`. */
  method RoundRobin(clusters0: seq<seq<Order>>, info: seq<OrderInfo>, ids: set<int>, drivers: int)
    returns (clusters: seq<seq<Order>>)
    requires drivers >= 1 && |clusters0| == drivers
    ensures |clusters| == drivers
    ensures multiset(FlatRow(clusters)) == multiset(FlatRow(clusters0)) + multiset(Leftover(Orders(info), ids))
  {
    clusters := clusters0;
    var rr := 0;
    var k := 0;
    while k < |info|
      invariant 0 <= k <= |info| && |clusters| == drivers && rr >= 0
      invariant multiset(FlatRow(clusters)) == multiset(FlatRow(clusters0)) + multiset(Leftover(Orders(info[..k]), ids))
    {
      var o := info[k].order;
      RobinStep(clusters, multiset(FlatRow(clusters0)), info, k, ids, rr % drivers);
      if o.orderId !in ids {
        clusters := clusters[rr % drivers := clusters[rr % drivers] + [o]];
        rr := rr + 1;
      }
      k := k + 1;
    }
    assert info[..k] == info;
  }

  lemma {:induction false} DistinctCount(xs: seq<Order>, o: Order)
    requires DistinctIds(xs)
    ensures multiset(xs)[o] <= 1
    decreases |xs|
  {
    if |xs| > 0 {
      var ys := xs[..|xs| - 1];
      assert xs == ys + [xs[|xs| - 1]];
      DistinctCount(ys, o);
      if o == xs[|xs| - 1] {
        assert o !in ys;
      }
    }
  }

  lemma {:induction false} KeptDistinct(t: Table, orders: seq<Order>)
    requires DistinctIds(orders)
    ensures DistinctIds(Kept(t, orders))
    ensures forall o :: o in Kept(t, orders) ==> o in orders
    decreases |orders|
  {
    if |orders| > 0 {
      var ys := orders[..|orders| - 1];
      var o := orders[|orders| - 1];
      KeptDistinct(t, ys);
      var ks := Kept(t, ys);
      forall i | 0 <= i < |ks|
        ensures ks[i].orderId != o.orderId
      {
        assert ks[i] in ys;
        var m :| 0 <= m < |ys| && ys[m] == ks[i];
        assert orders[m] == ks[i];
      }
    }
  }

  /** The handed-out orders followed by the round-robin leftovers never
      hold an order more often than the kept orders do, and with distinct
      ids they are exactly the kept orders. */
  lemma ClusterCount(kept: seq<Order>, flat: seq<Order>)
    requires multiset(flat) <= multiset(kept)
    ensures multiset(flat) + multiset(Leftover(kept, IdsOf(flat))) <= multiset(kept)
    ensures DistinctIds(kept) ==> multiset(flat) + multiset(Leftover(kept, IdsOf(flat))) == multiset(kept)
  {
    var ids := IdsOf(flat);
    var all := multiset(flat) + multiset(Leftover(kept, ids));
    forall o
      ensures all[o] <= multiset(kept)[o]
      ensures DistinctIds(kept) ==> all[o] == multiset(kept)[o]
    {
      LeftoverCount(kept, ids, o);
      if o.orderId in ids {
        var y :| y in flat && y.orderId == o.orderId;
        assert y in multiset(kept);
        if DistinctIds(kept) {
          DistinctCount(kept, o);
          if o in kept {
            var i :| 0 <= i < |kept| && kept[i] == o;
            var j :| 0 <= j < |kept| && kept[j] == y;
            assert i == j;
          }
        }
      } else {
        assert o !in flat;
      }
    }
  }

  /** `balanced_cluster(orders, drivers)`: the orders whose pickup has a
      column are split over `drivers` clusters by angular sector and radial
      zone around the depot; the clusters never repeat an order, and with
      distinct ids every such order lands in exactly one cluster. A grid
      with no driver and an order to file is not defined by the code. */
  method BalancedCluster(t: Table, orders: seq<Order>, drivers: int, sectorOf: (real, nat) -> nat)
    returns (clusters: seq<seq<Order>>)
    requires TableOk(t) && drivers >= 0 && (drivers >= 1 || Kept(t, orders) == [])
    ensures |clusters| == drivers
    ensures multiset(FlatRow(clusters)) <= multiset(Kept(t, orders))
    ensures DistinctIds(orders) ==> multiset(FlatRow(clusters)) == multiset(Kept(t, orders))
  {
    if |orders| == 0 {
      clusters := seq(drivers, _ => []);
      EmptyRow(clusters);
      return;
    }
    var info := CollectInfo(t, orders);
    if |info| == 0 {
      clusters := seq(drivers, _ => []);
      EmptyRow(clusters);
      return;
    }
    var sectors := Sectors(drivers);
    var zones := Zones(drivers);
    CellsEnough(drivers);
    var radii := seq(|info|, k requires 0 <= k < |info| => info[k].r);
    Sorting.Preorders();
    radii := Sorting.SortBy(radii, Sorting.RealLe());
    assert |radii| == |multiset(radii)| == |info|;
    var zb := ZoneBounds(radii, zones);
    var grid := BuildGrid(info, sectors, zones, zb, sectorOf);
    var handed := HandOut(grid, sectors, zones, drivers);
    var ids := AssignedIds(handed);
    clusters := RoundRobin(handed, info, ids, drivers);
    ClusterCount(Orders(info), FlatRow(handed));
    if DistinctIds(orders) {
      KeptDistinct(t, orders);
    }
  }

  // ---------------------------------------------------------------------
  // schedule_deliveries

  /** The ids of a cluster's orders, in cluster order. */
  function IdList(cluster: seq<Order>): (ids: seq<int>)
    ensures |ids| == |cluster| && forall k :: 0 <= k < |cluster| ==> ids[k] == cluster[k].orderId
  {
    seq(|cluster|, k requires 0 <= k < |cluster| => cluster[k].orderId)
  }

  /** A route with the same nodes and the same first node as one whose
      later nodes are all stops has only stops after its first node. */
  lemma SameStops(a: seq<int>, b: seq<int>, orders: seq<Order>)
    requires |a| >= 1 && |b| >= 1 && multiset(a) == multiset(b) && a[0] == b[0]
    requires forall p :: 1 <= p < |b| ==> IsStop(orders, b[p])
    ensures forall p :: 1 <= p < |a| ==> IsStop(orders, a[p])
  {
    assert a == [a[0]] + a[1..];
    assert b == [b[0]] + b[1..];
    assert multiset(a) == multiset{a[0]} + multiset(a[1..]);
    assert multiset(b) == multiset{b[0]} + multiset(b[1..]);
    assert multiset(a[1..]) == multiset(a) - multiset{a[0]};
    assert multiset(b[1..]) == multiset(b) - multiset{b[0]};
    forall p | 1 <= p < |a|
      ensures IsStop(orders, a[p])
    {
      assert a[p] in multiset(a[1..]);
      var q :| 0 <= q < |b[1..]| && b[1..][q] == a[p];
      assert b[q + 1] == a[p];
    }
  }

  /** What the code promises of driver `d`'s plan for `cluster`, given the
      greedy route it started from: the driver's own number, the cluster's
      ids, a route from the depot through the cluster's stops, and either the
      greedy route itself or a valid rearrangement of it that costs no more;
      a valid greedy route stays valid. */
  ghost predicate PlanOk(t: Table, cluster: seq<Order>, depot: int, d: int, a: Assignment, greedy: seq<int>)
    requires TableOk(t)
  {
    a.driverId == d && a.orderIds == IdList(cluster)
    && |greedy| >= 1 && greedy[0] == depot
    && (forall p :: 1 <= p < |greedy| ==> IsStop(cluster, greedy[p]))
    && |a.route| >= 1 && a.route[0] == depot
    && (cluster == [] ==> a.route == [depot])
    && (forall p :: 1 <= p < |a.route| ==> IsStop(cluster, a.route[p]))
    && (ValidRoute(greedy, cluster) ==> ValidRoute(a.route, cluster))
    && (a.route == greedy
        || (ValidRoute(a.route, cluster) && multiset(a.route) == multiset(greedy)
            && RouteCostOf(t, a.route) <= RouteCostOf(t, greedy)))
  }

  /** The body of the per-driver loop of `schedule_deliveries`. */
  method PlanDriver(t: Table, cluster: seq<Order>, depot: int, d: int) returns (a: Assignment, ghost greedy: seq<int>)
    requires TableOk(t)
    ensures PlanOk(t, cluster, depot, d, a, greedy)
  {
    if |cluster| == 0 {
      greedy := [depot];
      return Assignment(d, [depot], []), greedy;
    }
    var ids := IdList(cluster);
    ghost var steps: seq<(int, bool)>;
    var route;
    route, steps := GreedyRoute(t, cluster, depot);
    greedy := route;
    a := Assignment(d, route, ids);
    var ok := IsValidRoute(route, cluster);
    if ok {
      var improved;
      ghost var moves: nat;
      improved, moves := TwoOptImprove(t, cluster, route);
      var ok2 := IsValidRoute(improved, cluster);
      if ok2 {
        SameStops(improved, route, cluster);
        a := Assignment(d, improved, ids);
      }
    }
  }

  /** `schedule_deliveries(g, orders, drivers, depot)`: one plan per
      driver for its cluster of the orders whose pickup has a column. */
  method ScheduleDeliveries(t: Table, orders: seq<Order>, drivers: int, depot: int, sectorOf: (real, nat) -> nat)
    returns (assignments: seq<Assignment>, ghost clusters: seq<seq<Order>>, ghost greedy: seq<seq<int>>)
    requires TableOk(t) && drivers >= 0 && (drivers >= 1 || Kept(t, orders) == [])
    ensures |assignments| == drivers && |clusters| == drivers && |greedy| == drivers
    ensures multiset(FlatRow(clusters)) <= multiset(Kept(t, orders))
    ensures DistinctIds(orders) ==> multiset(FlatRow(clusters)) == multiset(Kept(t, orders))
    ensures forall d :: 0 <= d < drivers ==> PlanOk(t, clusters[d], depot, d, assignments[d], greedy[d])
  {
    if |orders| == 0 {
      clusters := seq(drivers, _ => []);
      EmptyRow(clusters);
      greedy := seq(drivers, _ => [depot]);
      assignments := seq(drivers, d => Assignment(d, [depot], []));
      return;
    }
    var cs := BalancedCluster(t, orders, drivers, sectorOf);
    clusters := cs;
    assignments, greedy := [], [];
    var d := 0;
    while d < drivers
      invariant 0 <= d <= drivers && |assignments| == d && |greedy| == d
      invariant forall e :: 0 <= e < d ==> PlanOk(t, cs[e], depot, e, assignments[e], greedy[e])
    {
      var a;
      ghost var g;
      a, g := PlanDriver(t, cs[d], depot, d);
      assignments, greedy := assignments + [a], greedy + [g];
      d := d + 1;
    }
  }

  // ---------------------------------------------------------------------
  // compute_total_delivery_time

  /** `order_map`: each id mapped to the last order carrying it. */
  function LastById(orders: seq<Order>): map<int, Order>
    decreases |orders|
  {
    if |orders| == 0 then map[]
    else
      var o := orders[|orders| - 1];
      LastById(orders[..|orders| - 1])[o.orderId := o]
  }

  /** The map holds exactly the ids of the orders, each with the last order
      that carries it. */
  lemma {:induction false} LastByIdSpec(orders: seq<Order>, id: int)
    ensures id in LastById(orders) <==> exists i :: 0 <= i < |orders| && orders[i].orderId == id
    ensures id in LastById(orders) ==>
              exists i :: 0 <= i < |orders| && orders[i] == LastById(orders)[id] && orders[i].orderId == id
                          && forall j :: i < j < |orders| ==> orders[j].orderId != id
    decreases |orders|
  {
    if |orders| > 0 {
      var n := |orders| - 1;
      var ys := orders[..n];
      LastByIdSpec(ys, id);
      if orders[n].orderId != id && id in LastById(ys) {
        var i :| 0 <= i < |ys| && ys[i] == LastById(ys)[id] && ys[i].orderId == id
                 && forall j :: i < j < |ys| ==> ys[j].orderId != id;
        assert orders[i] == ys[i];
        assert forall j :: i < j < |orders| ==> orders[j].orderId != id by {
          forall j | i < j < |orders|
            ensures orders[j].orderId != id
          {
            if j < n {
              assert orders[j] == ys[j];
            }
          }
        }
      }
      if orders[n].orderId != id {
        forall i | 0 <= i < |orders| && orders[i].orderId == id
          ensures exists i' :: 0 <= i' < |ys| && ys[i'].orderId == id
        {
          assert ys[i] == orders[i];
        }
      }
    }
  }

  /** The order-map loop. */
  method OrderMap(orders: seq<Order>) returns (m: map<int, Order>)
    ensures m == LastById(orders)
  {
    m := map[];
    var i := 0;
    while i < |orders|
      invariant 0 <= i <= |orders| && m == LastById(orders[..i])
    {
      assert orders[..i + 1][..i] == orders[..i];
      m := m[orders[i].orderId := orders[i]];
      i := i + 1;
    }
    assert orders[..i] == orders;
  }

  /** Listed order `id` is delivered at position `i >= 1` of the route: the
      node there is its dropoff and not its pickup, and its pickup was
      visited at some position in `1 .. i-1`. */
  predicate DeliveredAt(route: seq<int>, i: int, id: int, om: map<int, Order>)
    requires 1 <= i < |route|
  {
    id in om && route[i] != om[id].pickup && route[i] == om[id].dropoff && om[id].pickup in route[1..i]
  }

  /** What position `i` adds: the elapsed time there once per listed id
      delivered there. */
  function Gain(t: Table, route: seq<int>, i: int, ids: seq<int>, om: map<int, Order>): real
    requires TableOk(t) && 1 <= i < |route|
    decreases |ids|
  {
    if |ids| == 0 then 0.0
    else
      Gain(t, route, i, ids[..|ids| - 1], om)
      + (if DeliveredAt(route, i, ids[|ids| - 1], om) then RouteCostOf(t, route[..i + 1]) else 0.0)
  }

  /** A driver's contribution from positions `1 .. n-1` of its route. */
  function DriverTime(t: Table, route: seq<int>, ids: seq<int>, om: map<int, Order>, n: int): real
    requires TableOk(t) && n <= |route|
    decreases n
  {
    if n <= 1 then 0.0 else DriverTime(t, route, ids, om, n - 1) + Gain(t, route, n - 1, ids, om)
  }

  /** The total over every driver's whole route. */
  function TotalTime(t: Table, assignments: seq<Assignment>, om: map<int, Order>): real
    requires TableOk(t)
    decreases |assignments|
  {
    if |assignments| == 0 then 0.0
    else
      var a := assignments[|assignments| - 1];
      TotalTime(t, assignments[..|assignments| - 1], om) + DriverTime(t, a.route, a.orderIds, om, |a.route|)
  }

  /** The listed ids whose order is picked up at a position in `1 .. n-1`. */
  function PickedBefore(route: seq<int>, ids: seq<int>, om: map<int, Order>, n: int): set<int>
    requires 1 <= n <= |route|
  {
    set id | id in ids && id in om && om[id].pickup in route[1..n]
  }

  /** The listed ids whose order is picked up at node `x`. */
  function PickedHere(ids: seq<int>, om: map<int, Order>, x: int): set<int>
  {
    set id | id in ids && id in om && om[id].pickup == x
  }

  lemma PickedBeforeStep(route: seq<int>, ids: seq<int>, om: map<int, Order>, i: int)
    requires 1 <= i < |route|
    ensures PickedBefore(route, ids, om, i + 1) == PickedBefore(route, ids, om, i) + PickedHere(ids, om, route[i])
  {
    assert route[1..i + 1] == route[1..i] + [route[i]];
  }

  /** The inner loop over the driver's order ids at position `i`. */
  method ScanIds(t: Table, route: seq<int>, i: int, ids: seq<int>, om: map<int, Order>,
                 picked0: set<int>, total0: real, elapsed: real)
    returns (picked: set<int>, total: real)
    requires TableOk(t) && 1 <= i < |route|
    requires picked0 == PickedBefore(route, ids, om, i) && elapsed == RouteCostOf(t, route[..i + 1])
    ensures picked == PickedBefore(route, ids, om, i + 1)
    ensures total == total0 + Gain(t, route, i, ids, om)
  {
    picked, total := picked0, total0;
    var k := 0;
    while k < |ids|
      invariant 0 <= k <= |ids|
      invariant picked == picked0 + PickedHere(ids[..k], om, route[i])
      invariant total == total0 + Gain(t, route, i, ids[..k], om)
    {
      var id := ids[k];
      assert ids[..k + 1][..k] == ids[..k];
      assert ids[..k + 1] == ids[..k] + [id];
      if id in om {
        var o := om[id];
        if route[i] == o.pickup {
          picked := picked + {id};
        } else if route[i] == o.dropoff && id in picked {
          total := total + elapsed;
        }
      }
      k := k + 1;
    }
    assert ids[..k] == ids;
    PickedBeforeStep(route, ids, om, i);
  }

  /** One driver's share of `compute_total_delivery_time`. */
  method DriverDelivery(t: Table, route: seq<int>, ids: seq<int>, om: map<int, Order>, total0: real)
    returns (total: real)
    requires TableOk(t) && |route| > 1
    ensures total == total0 + DriverTime(t, route, ids, om, |route|)
  {
    total := total0;
    var elapsed := 0.0;
    var picked: set<int> := {};
    var i := 0;
    while i < |route| - 1
      invariant 0 <= i <= |route| - 1
      invariant elapsed == RouteCostOf(t, route[..i + 1])
      invariant picked == PickedBefore(route, ids, om, i + 1)
      invariant total == total0 + DriverTime(t, route, ids, om, i + 1)
    {
      assert route[..i + 2][..i + 1] == route[..i + 1];
      elapsed := elapsed + ShortestTime(t, route[i], route[i + 1]);
      picked, total := ScanIds(t, route, i + 1, ids, om, picked, total, elapsed);
      i := i + 1;
    }
  }

  /** `compute_total_delivery_time(g, assignments, orders)`. */
  method TotalDeliveryTime(t: Table, assignments: seq<Assignment>, orders: seq<Order>) returns (total: real)
    requires TableOk(t)
    ensures total == TotalTime(t, assignments, LastById(orders))
  {
    var om := OrderMap(orders);
    total := 0.0;
    var d := 0;
    while d < |assignments|
      invariant 0 <= d <= |assignments|
      invariant total == TotalTime(t, assignments[..d], om)
    {
      assert assignments[..d + 1][..d] == assignments[..d];
      var a := assignments[d];
      if |a.route| > 1 {
        total := DriverDelivery(t, a.route, a.orderIds, om, total);
      }
      d := d + 1;
    }
    assert assignments[..d] == assignments;
  }

  /** With a non-negative table every driver adds a non-negative amount
      and the total is non-negative. */
  lemma {:induction false} TotalTimeNonNeg(t: Table, assignments: seq<Assignment>, om: map<int, Order>)
    requires TableOk(t) && TableNonNeg(t)
    ensures TotalTime(t, assignments, om) >= 0.0
    decreases |assignments|
  {
    if |assignments| > 0 {
      var a := assignments[|assignments| - 1];
      TotalTimeNonNeg(t, assignments[..|assignments| - 1], om);
      DriverTimeNonNeg(t, a.route, a.orderIds, om, |a.route|);
    }
  }

  lemma {:induction false} DriverTimeNonNeg(t: Table, route: seq<int>, ids: seq<int>, om: map<int, Order>, n: int)
    requires TableOk(t) && TableNonNeg(t) && n <= |route|
    ensures DriverTime(t, route, ids, om, n) >= 0.0
    decreases n
  {
    if n > 1 {
      DriverTimeNonNeg(t, route, ids, om, n - 1);
      GainNonNeg(t, route, n - 1, ids, om);
    }
  }

  lemma {:induction false} GainNonNeg(t: Table, route: seq<int>, i: int, ids: seq<int>, om: map<int, Order>)
    requires TableOk(t) && TableNonNeg(t) && 1 <= i < |route|
    ensures Gain(t, route, i, ids, om) >= 0.0
    decreases |ids|
  {
    if |ids| > 0 {
      GainNonNeg(t, route, i, ids[..|ids| - 1], om);
      RouteCostNonNeg(t, route[..i + 1]);
    }
  }

  /** The sum over the listed ids of what each one alone adds. */
  function PerOrder(t: Table, route: seq<int>, ids: seq<int>, om: map<int, Order>): real
    requires TableOk(t)
    decreases |ids|
  {
    if |ids| == 0 then 0.0
    else PerOrder(t, route, ids[..|ids| - 1], om) + DriverTime(t, route, [ids[|ids| - 1]], om, |route|)
  }

  lemma {:induction false} DriverTimeSplit(t: Table, route: seq<int>, ids: seq<int>, om: map<int, Order>, n: int)
    requires TableOk(t) && n <= |route| && |ids| >= 1
    ensures DriverTime(t, route, ids, om, n)
            == DriverTime(t, route, ids[..|ids| - 1], om, n) + DriverTime(t, route, [ids[|ids| - 1]], om, n)
    decreases n
  {
    if n > 1 {
      DriverTimeSplit(t, route, ids, om, n - 1);
      var x := ids[|ids| - 1];
      assert [x][..0] == [];
      assert Gain(t, route, n - 1, [x], om) == Gain(t, route, n - 1, [], om)
             + (if DeliveredAt(route, n - 1, x, om) then RouteCostOf(t, route[..n]) else 0.0);
      assert Gain(t, route, n - 1, ids, om) == Gain(t, route, n - 1, ids[..|ids| - 1], om) + Gain(t, route, n - 1, [x], om);
    }
  }

  /** A driver's share is the sum over its listed ids of what each order
      alone adds: the ids are counted independently. */
  lemma {:induction false} DriverTimeByOrder(t: Table, route: seq<int>, ids: seq<int>, om: map<int, Order>)
    requires TableOk(t)
    ensures DriverTime(t, route, ids, om, |route|) == PerOrder(t, route, ids, om)
    decreases |ids|
  {
    if |ids| == 0 {
      DriverTimeEmpty(t, route, om, |route|);
    } else {
      DriverTimeByOrder(t, route, ids[..|ids| - 1], om);
      DriverTimeSplit(t, route, ids, om, |route|);
    }
  }

  lemma {:induction false} DriverTimeEmpty(t: Table, route: seq<int>, om: map<int, Order>, n: int)
    requires TableOk(t) && n <= |route|
    ensures DriverTime(t, route, [], om, n) == 0.0
    decreases n
  {
    if n > 1 {
      DriverTimeEmpty(t, route, om, n - 1);
    }
  }

  /** What one id adds when it can be delivered at position `q` at most. */
  lemma {:induction false} OneDelivery(t: Table, route: seq<int>, id: int, om: map<int, Order>, q: int, n: int)
    requires TableOk(t) && n <= |route|
    requires forall i :: 1 <= i < |route| && i != q ==> !DeliveredAt(route, i, id, om)
    ensures DriverTime(t, route, [id], om, n)
            == if 1 <= q < n && DeliveredAt(route, q, id, om) then RouteCostOf(t, route[..q + 1]) else 0.0
    decreases n
  {
    if n > 1 {
      OneDelivery(t, route, id, om, q, n - 1);
      assert [id][..0] == [];
      assert Gain(t, route, n - 1, [id], om) == Gain(t, route, n - 1, [], om)
             + (if DeliveredAt(route, n - 1, id, om) then RouteCostOf(t, route[..n]) else 0.0);
    }
  }

  /** An order picked up after the depot whose dropoff, a different node,
      is visited exactly once, later, adds the elapsed time at that visit:
      its delivery time. */
  lemma DeliveryTimeOfOrder(t: Table, route: seq<int>, id: int, om: map<int, Order>, q: int)
    requires TableOk(t) && id in om && om[id].pickup != om[id].dropoff
    requires 1 <= q < |route| && route[q] == om[id].dropoff && om[id].pickup in route[1..q]
    requires forall i :: 0 <= i < |route| && i != q ==> route[i] != om[id].dropoff
    ensures DriverTime(t, route, [id], om, |route|) == RouteCostOf(t, route[..q + 1])
  {
    OneDelivery(t, route, id, om, q, |route|);
  }

  /** An order whose pickup is visited only at the start of the route, as
      when it is picked up at the depot, never adds anything. */
  lemma DepotPickupIgnored(t: Table, route: seq<int>, id: int, om: map<int, Order>)
    requires TableOk(t) && |route| >= 1 && id in om && om[id].pickup !in route[1..]
    ensures DriverTime(t, route, [id], om, |route|) == 0.0
  {
    forall i | 1 <= i < |route|
      ensures om[id].pickup !in route[1..i]
    {
      assert forall x :: x in route[1..i] ==> x in route[1..] by {
        forall x | x in route[1..i]
          ensures x in route[1..]
        {
          var m :| 0 <= m < |route[1..i]| && route[1..i][m] == x;
          assert route[1..][m] == x;
        }
      }
    }
    OneDelivery(t, route, id, om, 0, |route|);
  }
}
