// The autograder's road graph (`Graph` in the autograder's graph module): edge
// records by id and a per-node list of `(neighbour, edge id)` entries, the
// update queries that disable or patch a record, and the checks of a
// submitted shortest path and of a whole batch of answers.
module GraderGraph {
  import opened Common
  import opened GraderEdge
  import Sorting

  /** The graph's mutable part as a value: `edges` and `roads_adj`. */
  datatype Store = Store(edges: map<int, PyEdge>, adj: map<int, seq<(int, int)>>)

  function AdjOf(adj: map<int, seq<(int, int)>>, u: int): seq<(int, int)>
  {
    if u in adj then adj[u] else []
  }

  /** Every adjacency entry names a stored edge record. */
  predicate Resolves(s: Store)
  {
    forall u, k :: u in s.adj && 0 <= k < |s.adj[u]| ==> s.adj[u][k].1 in s.edges
  }

  /** The reverse record `_load_edges` builds: every field copied, ends swapped. */
  function Mirrored(e: PyEdge): PyEdge
  {
    e.(u := e.v, v := e.u)
  }

  /** `_add_edge`: the record under its id (replacing any earlier one) and an
      entry appended to the list of its tail. */
  function AddOne(s: Store, e: PyEdge): Store
  {
    Store(s.edges[e.id := e], s.adj[e.u := AdjOf(s.adj, e.u) + [(e.v, e.id)]])
  }

  /** One edge of the file: the edge and, unless it is one-way, its mirror. */
  function LoadOne(s: Store, e: PyEdge): Store
  {
    if e.oneWay then AddOne(s, e) else AddOne(AddOne(s, e), Mirrored(e))
  }

  /** `_load_edges` over the edges of the file, in order. */
  function LoadAll(s: Store, es: seq<PyEdge>): Store
  {
    if |es| == 0 then s else LoadOne(LoadAll(s, es[..|es| - 1]), es[|es| - 1])
  }

  /** The record an id ends up with when `e` is the last edge carrying it. */
  function Stored(e: PyEdge): PyEdge
  {
    if e.oneWay then e else Mirrored(e)
  }

  lemma LoadOneFacts(s: Store, e: PyEdge)
    ensures Resolves(s) ==> Resolves(LoadOne(s, e))
    ensures LoadOne(s, e).edges == s.edges[e.id := Stored(e)]
    ensures forall u :: AdjOf(s.adj, u) <= AdjOf(LoadOne(s, e).adj, u)
    ensures (e.v, e.id) in AdjOf(LoadOne(s, e).adj, e.u)
    ensures !e.oneWay ==> (e.u, e.id) in AdjOf(LoadOne(s, e).adj, e.v)
  {
    AddOneFacts(s, e);
    if !e.oneWay {
      AddOneFacts(AddOne(s, e), Mirrored(e));
    }
  }

  /** `_add_edge` keeps every entry resolvable, only appends, and leaves the
      new entry last in its tail's list. */
  lemma AddOneFacts(s: Store, e: PyEdge)
    ensures Resolves(s) ==> Resolves(AddOne(s, e))
    ensures forall u :: AdjOf(s.adj, u) <= AdjOf(AddOne(s, e).adj, u)
    ensures (e.v, e.id) in AdjOf(AddOne(s, e).adj, e.u)
  {
    var s1 := AddOne(s, e);
    assert (e.v, e.id) == AdjOf(s1.adj, e.u)[|AdjOf(s1.adj, e.u)| - 1];
  }

  /** Loading keeps every entry resolvable and never drops an entry. */
  lemma {:induction false} LoadAllKeeps(s: Store, es: seq<PyEdge>)
    ensures Resolves(s) ==> Resolves(LoadAll(s, es))
    ensures forall u :: AdjOf(s.adj, u) <= AdjOf(LoadAll(s, es).adj, u)
  {
    if |es| > 0 {
      var n := |es| - 1;
      var s0 := LoadAll(s, es[..n]);
      LoadAllKeeps(s, es[..n]);
      LoadOneFacts(s0, es[n]);
      forall u
        ensures AdjOf(s.adj, u) <= AdjOf(LoadAll(s, es).adj, u)
      {
        assert AdjOf(s0.adj, u) <= AdjOf(LoadAll(s, es).adj, u);
      }
    }
  }

  /** Each edge of the file leaves an entry at its tail and, unless it is
      one-way, one at its head, both under its id. */
  lemma {:induction false} LoadAllEntries(s: Store, es: seq<PyEdge>, i: int)
    requires 0 <= i < |es|
    ensures (es[i].v, es[i].id) in AdjOf(LoadAll(s, es).adj, es[i].u)
    ensures !es[i].oneWay ==> (es[i].u, es[i].id) in AdjOf(LoadAll(s, es).adj, es[i].v)
  {
    var n := |es| - 1;
    var s0 := LoadAll(s, es[..n]);
    var s1 := LoadAll(s, es);
    assert s1 == LoadOne(s0, es[n]);
    LoadOneFacts(s0, es[n]);
    if i < n {
      var e := es[i];
      assert es[..n][i] == e;
      LoadAllEntries(s, es[..n], i);
      PrefixHas(AdjOf(s0.adj, e.u), AdjOf(s1.adj, e.u), (e.v, e.id));
      if !e.oneWay {
        PrefixHas(AdjOf(s0.adj, e.v), AdjOf(s1.adj, e.v), (e.u, e.id));
      }
    }
  }

  /** What a prefix holds, the longer list holds. */
  lemma PrefixHas<T>(a: seq<T>, b: seq<T>, x: T)
    requires a <= b && x in a
    ensures x in b
  {
    var k :| 0 <= k < |a| && a[k] == x;
    assert b[k] == x;
  }

  /** The ids the edges of a file carry. */
  function FileIds(es: seq<PyEdge>): set<int>
  {
    if |es| == 0 then {} else FileIds(es[..|es| - 1]) + {es[|es| - 1].id}
  }

  lemma {:induction false} FileIdsSpec(es: seq<PyEdge>, id: int)
    ensures id in FileIds(es) <==> exists i :: 0 <= i < |es| && es[i].id == id
  {
    if |es| > 0 {
      var n := |es| - 1;
      FileIdsSpec(es[..n], id);
      if id in FileIds(es[..n]) {
        var i :| 0 <= i < n && es[..n][i].id == id;
        assert es[i].id == id;
      }
      if id != es[n].id && exists i :: 0 <= i < |es| && es[i].id == id {
        var i :| 0 <= i < |es| && es[i].id == id;
        assert es[..n][i].id == id;
      }
    }
  }

  /** The ids with a record after loading: the earlier ones and those of
      the file. */
  lemma {:induction false} LoadAllIds(s: Store, es: seq<PyEdge>)
    ensures LoadAll(s, es).edges.Keys == s.edges.Keys + FileIds(es)
  {
    if |es| > 0 {
      var n := |es| - 1;
      LoadAllIds(s, es[..n]);
      LoadOneFacts(LoadAll(s, es[..n]), es[n]);
    }
  }

  /** An id holds the record of the last edge of the file carrying it (the
      mirror, for a two-way road), so both directions share that record. */
  lemma {:induction false} LoadAllLast(s: Store, es: seq<PyEdge>, i: int)
    requires 0 <= i < |es| && forall j :: i < j < |es| ==> es[j].id != es[i].id
    ensures es[i].id in LoadAll(s, es).edges
    ensures LoadAll(s, es).edges[es[i].id] == Stored(es[i])
  {
    var n := |es| - 1;
    var pre := es[..n];
    LoadOneFacts(LoadAll(s, pre), es[n]);
    if i < n {
      assert pre[i] == es[i];
      assert es[n].id != es[i].id;
      LoadAllLast(s, pre, i);
    }
  }

  /** `remove_edge_uv`: a known id is flagged disabled; the lists stay. */
  function Disable(s: Store, id: int): Store
  {
    if id in s.edges then Store(s.edges[id := s.edges[id].(disabled := true)], s.adj) else s
  }

  /** `modify_edge`: a known id is patched and enabled again. */
  function Modify(s: Store, id: int, p: Patch): Store
  {
    if id in s.edges then Store(s.edges[id := ApplyPatch(s.edges[id], p).(disabled := false)], s.adj) else s
  }

  /** An entry leads to `v` over an edge that is not disabled. */
  predicate Usable(edges: map<int, PyEdge>, entry: (int, int), v: int)
    requires entry.1 in edges
  {
    entry.0 == v && !edges[entry.1].disabled
  }

  /** The id of the first usable entry towards `v` in a list, as the inner
      loops of `validate_path` and `validate_shortest_path` find it. */
  function FirstEnabled(edges: map<int, PyEdge>, es: seq<(int, int)>, v: int): (r: Option<int>)
    requires forall k :: 0 <= k < |es| ==> es[k].1 in edges
    ensures r.Some? <==> exists k :: 0 <= k < |es| && Usable(edges, es[k], v)
    ensures r.Some? ==> r.value in edges
    ensures r.Some? ==> exists k :: 0 <= k < |es| && es[k].1 == r.value && Usable(edges, es[k], v)
                                    && forall j :: 0 <= j < k ==> !Usable(edges, es[j], v)
  {
    if |es| == 0 then None
    else if Usable(edges, es[0], v) then Some(es[0].1)
    else
      var r := FirstEnabled(edges, es[1..], v);
      assert forall k :: 0 < k < |es| ==> es[1..][k - 1] == es[k];
      assert forall k :: 0 <= k < |es| - 1 ==> es[1..][k] == es[k + 1];
      r
  }

  /** Disabling an id closes every entry carrying it, in both directions: no
      search picks it any more. */
  lemma DisableCloses(s: Store, id: int, u: int, v: int)
    requires Resolves(s) && id in s.edges
    ensures Resolves(Disable(s, id))
    ensures FirstEnabled(Disable(s, id).edges, AdjOf(s.adj, u), v) != Some(id)
  {
  }

  /** Patching an id reopens a hop `u -> v` that has an entry carrying it,
      whatever the patch says. */
  lemma ModifyReopens(s: Store, id: int, p: Patch, u: int, v: int)
    requires Resolves(s) && id in s.edges && (v, id) in AdjOf(s.adj, u)
    ensures Resolves(Modify(s, id, p))
    ensures FirstEnabled(Modify(s, id, p).edges, AdjOf(s.adj, u), v).Some?
  {
    var es := AdjOf(s.adj, u);
    var k :| 0 <= k < |es| && es[k] == (v, id);
    assert Usable(Modify(s, id, p).edges, es[k], v);
  }

  /** One hop of `validate_path`: the next vertex is allowed and the first
      usable entry towards it is of an allowed road type. */
  predicate HopOk(s: Store, u: int, v: int, fN: set<int>, fR: set<string>)
    requires Resolves(s)
  {
    v !in fN
    && var r := FirstEnabled(s.edges, AdjOf(s.adj, u), v);
       r.Some? && s.edges[r.value].roadType !in fR
  }

  /** What `validate_path` accepts. */
  predicate ValidPath(s: Store, vs: seq<int>, fN: set<int>, fR: set<string>, src: int, trg: int)
    requires Resolves(s)
  {
    |vs| >= 2 && vs[0] !in fN && vs[|vs| - 1] !in fN && vs[0] == src && vs[|vs| - 1] == trg
    && forall k :: 0 <= k < |vs| - 1 ==> HopOk(s, vs[k], vs[k + 1], fN, fR)
  }

  /** A valid path touches no forbidden vertex. */
  lemma ValidPathAvoids(s: Store, vs: seq<int>, fN: set<int>, fR: set<string>, src: int, trg: int)
    requires Resolves(s) && ValidPath(s, vs, fN, fR, src, trg)
    ensures forall i :: 0 <= i < |vs| ==> vs[i] !in fN
  {
    forall i | 0 <= i < |vs|
      ensures vs[i] !in fN
    {
      if i > 0 {
        assert HopOk(s, vs[i - 1], vs[i], fN, fR);
      }
    }
  }

  /** Every hop of a valid path crosses an enabled edge of an allowed road
      type listed at its tail. */
  lemma ValidPathHop(s: Store, vs: seq<int>, fN: set<int>, fR: set<string>, src: int, trg: int, k: int)
    requires Resolves(s) && ValidPath(s, vs, fN, fR, src, trg) && 0 <= k < |vs| - 1
    ensures exists e :: e in AdjOf(s.adj, vs[k]) && e.0 == vs[k + 1] && e.1 in s.edges
                        && !s.edges[e.1].disabled && s.edges[e.1].roadType !in fR
  {
    assert HopOk(s, vs[k], vs[k + 1], fN, fR);
    var es := AdjOf(s.adj, vs[k]);
    var id := FirstEnabled(s.edges, es, vs[k + 1]).value;
    var j :| 0 <= j < |es| && es[j].1 == id && Usable(s.edges, es[j], vs[k + 1]);
    assert es[j] in es;
  }

  /** A record the time mode can cross: a non-negative average time and, when
      there is a profile, a slot with positive speed (the traversal loop of
      `get_cross_time` never ends otherwise). */
  predicate Ready(e: PyEdge)
  {
    e.averageTime >= 0.0 && (|e.speedProfile| > 0 ==> HasPositiveSlot(e.speedProfile))
  }

  predicate AllReady(edges: map<int, PyEdge>)
  {
    forall id :: id in edges ==> Ready(edges[id])
  }

  /** A patch that leaves a ready record ready. */
  predicate PatchReady(p: Patch)
  {
    (p.averageTime.Some? ==> p.averageTime.value >= 0.0)
    && (p.speedProfile.Some? && |p.speedProfile.value| > 0 ==> HasPositiveSlot(p.speedProfile.value))
  }

  /** The cost of one hop entered at clock `t`: the crossing time in time
      mode, the length otherwise. */
  function HopCost(e: PyEdge, t: real, time: bool): (c: real)
    requires time ==> CrossOk(e)
    ensures time && (|e.speedProfile| > 0 || e.averageTime >= 0.0) ==> c >= 0.0
  {
    if time then CrossTimeSpec(e, t); CrossTime(e, t) else e.length
  }

  /** The record the total loop crosses for the hop `u -> v`, when it gets
      there and the road type is allowed, is one whose traversal ends. */
  predicate HopReady(s: Store, u: int, v: int, fR: set<string>)
    requires Resolves(s)
  {
    match FirstEnabled(s.edges, AdjOf(s.adj, u), v)
    case None => true
    case Some(id) => s.edges[id].roadType in fR || CrossOk(s.edges[id])
  }

  /** What the time mode needs for the first `n` hops of a path: every
      record the total loop crosses before it fails has a traversal that
      ends. All records ready is enough. */
  predicate PathReady(s: Store, vs: seq<int>, fR: set<string>, n: nat)
    requires Resolves(s) && (n == 0 || n < |vs|)
    decreases n, 0
  {
    AllReady(s.edges) || n == 0
    || (PathReady(s, vs, fR, n - 1)
        && (PathCost(s, vs, fR, true, n - 1).Some? ==> HopReady(s, vs[n - 1], vs[n], fR)))
  }

  /** Readiness of a path's hops holds for every shorter prefix. */
  lemma {:induction false} PathReadyPrefix(s: Store, vs: seq<int>, fR: set<string>, n: nat, m: nat)
    requires Resolves(s) && (n == 0 || n < |vs|) && m <= n && PathReady(s, vs, fR, n)
    ensures PathReady(s, vs, fR, m)
    decreases n
  {
    if m < n && !AllReady(s.edges) {
      PathReadyPrefix(s, vs, fR, n - 1, m);
    }
  }

  /** The total over the first `n` hops of a path as the loop of
      `validate_shortest_path` adds it up, or `None` where that loop fails
      (no usable entry, or one of a forbidden road type). */
  function PathCost(s: Store, vs: seq<int>, fR: set<string>, time: bool, n: nat): (r: Option<real>)
    requires Resolves(s) && (n == 0 || n < |vs|)
    requires time ==> PathReady(s, vs, fR, n)
    ensures time && AllReady(s.edges) && r.Some? ==> r.value >= 0.0
    decreases n, 1
  {
    if n == 0 then Some(0.0)
    else
      match PathCost(s, vs, fR, time, n - 1)
      case None => None
      case Some(t) =>
        match FirstEnabled(s.edges, AdjOf(s.adj, vs[n - 1]), vs[n])
        case None => None
        case Some(id) => if s.edges[id].roadType in fR then None else Some(t + HopCost(s.edges[id], t, time))
  }

  /** A usable, allowed hop extends the total by its cost. */
  lemma PathCostNext(s: Store, vs: seq<int>, fR: set<string>, time: bool, i: nat, t: real, id: int)
    requires Resolves(s) && i + 1 < |vs| && (time ==> PathReady(s, vs, fR, i + 1))
    requires PathCost(s, vs, fR, time, i) == Some(t)
    requires FirstEnabled(s.edges, AdjOf(s.adj, vs[i]), vs[i + 1]) == Some(id)
    requires s.edges[id].roadType !in fR
    ensures PathCost(s, vs, fR, time, i + 1) == Some(t + HopCost(s.edges[id], t, time))
  {
  }

  /** A hop with no usable entry, or whose first usable entry is forbidden,
      fails the total. */
  lemma PathCostFails(s: Store, vs: seq<int>, fR: set<string>, time: bool, i: nat)
    requires Resolves(s) && i + 1 < |vs| && (time ==> PathReady(s, vs, fR, i + 1))
    requires var f := FirstEnabled(s.edges, AdjOf(s.adj, vs[i]), vs[i + 1]);
             f.None? || s.edges[f.value].roadType in fR
    ensures PathCost(s, vs, fR, time, i + 1).None?
  {
  }

  /** On a path `validate_path` accepted, the total loop never fails. */
  lemma {:induction false} ValidPathCosts(s: Store, vs: seq<int>, fN: set<int>, fR: set<string>, src: int, trg: int,
                                          time: bool, n: nat)
    requires Resolves(s) && ValidPath(s, vs, fN, fR, src, trg) && n < |vs|
    requires time ==> PathReady(s, vs, fR, n)
    ensures PathCost(s, vs, fR, time, n).Some?
  {
    if n > 0 {
      if time {
        PathReadyPrefix(s, vs, fR, n, n - 1);
      }
      ValidPathCosts(s, vs, fN, fR, src, trg, time, n - 1);
      assert HopOk(s, vs[n - 1], vs[n], fN, fR);
    }
  }

  /** Once the total loop fails it stays failed. */
  lemma {:induction false} PathCostStuck(s: Store, vs: seq<int>, fR: set<string>, time: bool, n: nat, m: nat)
    requires Resolves(s) && n <= m < |vs| && (time ==> PathReady(s, vs, fR, n) && PathReady(s, vs, fR, m))
    requires PathCost(s, vs, fR, time, n).None?
    ensures PathCost(s, vs, fR, time, m).None?
    decreases m
  {
    if m > n {
      if time {
        PathReadyPrefix(s, vs, fR, m, m - 1);
      }
      PathCostStuck(s, vs, fR, time, n, m - 1);
    }
  }

  /** A shortest-path query: endpoints, constraints and the cost mode. */
  datatype SpQuery = SpQuery(source: int, target: int, forbiddenNodes: set<int>,
                             forbiddenRoads: set<string>, timeMode: bool)

  /** A submitted answer: the `possible` field (absent as `None`), the path
      and the three keys a reported total can be under. */
  datatype SpOut = SpOut(possible: Option<bool>, path: seq<int>, combined: Option<real>,
                         minimumTime: Option<real>, minimumDistance: Option<real>)

  /** The expected answer, with the defaults (possible, total 0) filled in. */
  datatype SpExpected = SpExpected(possible: bool, total: real)

  /** The reported total: the combined key first, then the mode's own key. */
  function Reported(o: SpOut, time: bool): Option<real>
  {
    if o.combined.Some? then o.combined else if time then o.minimumTime else o.minimumDistance
  }

  function Abs(x: real): real
  {
    if x < 0.0 then -x else x
  }

  /** The tolerance between the reported and the recomputed total. */
  const REPORT_TOLERANCE: real := 0.01

  /** How far above the expected total an answer may be. */
  const EXPECTED_TOLERANCE: real := 0.1

  /** What checking an answer needs of the graph: in time mode, a
      "possible" answer over a valid path crosses only records whose
      traversal ends. */
  predicate AnswerReady(s: Store, q: SpQuery, o: SpOut)
    requires Resolves(s)
  {
    q.timeMode && o.possible == Some(true) && |o.path| >= 1
    && ValidPath(s, o.path, q.forbiddenNodes, q.forbiddenRoads, q.source, q.target)
    ==> PathReady(s, o.path, q.forbiddenRoads, |o.path| - 1)
  }

  /** What `validate_shortest_path` accepts. */
  predicate Accepts(s: Store, q: SpQuery, o: SpOut, x: SpExpected)
    requires Resolves(s) && AnswerReady(s, q, o)
  {
    if o.possible.None? then false
    else if !o.possible.value then !x.possible
    else if !ValidPath(s, o.path, q.forbiddenNodes, q.forbiddenRoads, q.source, q.target) then false
    else
      match PathCost(s, o.path, q.forbiddenRoads, q.timeMode, |o.path| - 1)
      case None => false
      case Some(total) =>
        var rep := Reported(o, q.timeMode);
        rep.Some? && Abs(total - rep.value) <= REPORT_TOLERANCE && !(total - x.total > EXPECTED_TOLERANCE)
  }

  /** An "impossible" answer is accepted exactly when impossible is expected. */
  lemma AcceptsImpossible(s: Store, q: SpQuery, o: SpOut, x: SpExpected)
    requires Resolves(s) && o.possible == Some(false)
    ensures Accepts(s, q, o, x) <==> !x.possible
  {
  }

  /** A "possible" answer is accepted exactly when its path is valid, a total
      is reported within 0.01 of the path's recomputed cost, and that cost is
      at most 0.1 above the expected one. */
  lemma AcceptsPossible(s: Store, q: SpQuery, o: SpOut, x: SpExpected)
    requires Resolves(s) && AnswerReady(s, q, o) && o.possible == Some(true)
    ensures Accepts(s, q, o, x) <==>
              ValidPath(s, o.path, q.forbiddenNodes, q.forbiddenRoads, q.source, q.target)
              && Reported(o, q.timeMode).Some?
              && var cost := PathCost(s, o.path, q.forbiddenRoads, q.timeMode, |o.path| - 1);
                 cost.Some?
                 && Abs(cost.value - Reported(o, q.timeMode).value) <= REPORT_TOLERANCE
                 && cost.value <= x.total + EXPECTED_TOLERANCE
  {
  }

  /** A valid path reported at exactly the autograder's recomputed cost, that
      cost also being the expected total, is accepted. */
  lemma AcceptsExact(s: Store, q: SpQuery, path: seq<int>, c: real)
    requires Resolves(s) && |path| >= 1 && (q.timeMode ==> PathReady(s, path, q.forbiddenRoads, |path| - 1))
    requires ValidPath(s, path, q.forbiddenNodes, q.forbiddenRoads, q.source, q.target)
    requires PathCost(s, path, q.forbiddenRoads, q.timeMode, |path| - 1) == Some(c)
    ensures Accepts(s, q, SpOut(Some(true), path, Some(c), None, None), SpExpected(true, c))
  {
  }

  /** An accepted "possible" answer reports at most 0.11 above the expected
      total, over a path with no forbidden vertex whose cost the autograder
      could recompute. */
  lemma AcceptedBounds(s: Store, q: SpQuery, o: SpOut, x: SpExpected)
    requires Resolves(s) && AnswerReady(s, q, o) && o.possible == Some(true)
    requires Accepts(s, q, o, x)
    ensures Reported(o, q.timeMode).Some?
    ensures Reported(o, q.timeMode).value <= x.total + REPORT_TOLERANCE + EXPECTED_TOLERANCE
    ensures forall i :: 0 <= i < |o.path| ==> o.path[i] !in q.forbiddenNodes
  {
    ValidPathAvoids(s, o.path, q.forbiddenNodes, q.forbiddenRoads, q.source, q.target);
  }

  /** On a valid path the cost is always recomputed: a "possible" answer
      over a valid path fails only on the reported total. */
  lemma ValidAnswerCosted(s: Store, q: SpQuery, o: SpOut)
    requires Resolves(s) && ValidPath(s, o.path, q.forbiddenNodes, q.forbiddenRoads, q.source, q.target)
    requires q.timeMode ==> PathReady(s, o.path, q.forbiddenRoads, |o.path| - 1)
    ensures PathCost(s, o.path, q.forbiddenRoads, q.timeMode, |o.path| - 1).Some?
  {
    ValidPathCosts(s, o.path, q.forbiddenNodes, q.forbiddenRoads, q.source, q.target, q.timeMode, |o.path| - 1);
  }

  /** The autograder's query kinds; `KnnQ` says whether the metric is
      `shortest_path`. */
  datatype Query = RemoveQ(edgeId: int) | ModifyQ(edgeId: int, patch: Patch) | PathQ(sp: SpQuery)
                 | KnnQ(byShortestPath: bool) | OtherQ

  /** A submitted output, with `done` defaulting to true filled in. */
  datatype Output = Output(done: bool, sp: SpOut, nodes: seq<int>)

  datatype Expected = Expected(sp: SpExpected, nodes: seq<int>, euclidian: seq<int>, haversine: seq<int>)

  /** Two node lists with the same elements, counted with multiplicity. */
  predicate SameItems(a: seq<int>, b: seq<int>)
  {
    multiset(a) == multiset(b)
  }

  /** What checking an answer to a query needs of the graph. */
  predicate Fits(s: Store, q: Query, o: Output)
  {
    Resolves(s) && (q.PathQ? ==> AnswerReady(s, q.sp, o.sp))
  }

  /** `verify`: the verdict on one answer and the graph after it. An update
      query applies the update and compares its outcome with `done`. */
  function Step(s: Store, q: Query, o: Output, x: Expected): (r: (bool, Store))
    requires Fits(s, q, o)
    ensures Resolves(r.1)
    ensures AllReady(s.edges) && (q.ModifyQ? ==> PatchReady(q.patch)) ==> AllReady(r.1.edges)
    ensures !q.RemoveQ? && !q.ModifyQ? ==> r.1 == s
  {
    match q
    case RemoveQ(id) => ((id in s.edges) == o.done, Disable(s, id))
    case ModifyQ(id, p) => ((id in s.edges) == o.done, Modify(s, id, p))
    case PathQ(sp) => (Accepts(s, sp, o.sp, x.sp), s)
    case KnnQ(sh) =>
      (if sh then SameItems(o.nodes, x.nodes) else SameItems(o.nodes, x.euclidian) || SameItems(o.nodes, x.haversine), s)
    case OtherQ => (false, s)
  }

  /** Some query of the batch is a time-mode shortest path. */
  predicate AnyTime(qs: seq<Query>)
  {
    exists i :: 0 <= i < |qs| && qs[i].PathQ? && qs[i].sp.timeMode
  }

  predicate PatchesReady(qs: seq<Query>)
  {
    forall i :: 0 <= i < |qs| && qs[i].ModifyQ? ==> PatchReady(qs[i].patch)
  }

  /** What a batch needs of the graph: resolvable entries, and every answer
      checkable on the graph the earlier answers leave. */
  predicate BatchOk(s: Store, qs: seq<Query>, os: seq<Output>, xs: seq<Expected>)
    requires |os| == |qs| && |xs| == |qs|
    decreases |qs|
  {
    Resolves(s)
    && (|qs| == 0
        || (Fits(s, qs[0], os[0]) && BatchOk(Step(s, qs[0], os[0], xs[0]).1, qs[1..], os[1..], xs[1..])))
  }

  /** Enough for a batch, whatever the answers: when some query is in time
      mode, every record and every patch is ready. */
  lemma {:induction false} ReadyBatch(s: Store, qs: seq<Query>, os: seq<Output>, xs: seq<Expected>)
    requires |os| == |qs| && |xs| == |qs|
    requires Resolves(s) && (AnyTime(qs) ==> AllReady(s.edges) && PatchesReady(qs))
    ensures BatchOk(s, qs, os, xs)
    decreases |qs|
  {
    if |qs| > 0 {
      if qs[0].PathQ? && qs[0].sp.timeMode {
        assert AnyTime(qs);
      }
      assert Fits(s, qs[0], os[0]);
      var s1 := Step(s, qs[0], os[0], xs[0]).1;
      if AnyTime(qs[1..]) {
        var i :| 0 <= i < |qs[1..]| && qs[1..][i].PathQ? && qs[1..][i].sp.timeMode;
        assert qs[i + 1] == qs[1..][i];
        forall j | 0 <= j < |qs[1..]| && qs[1..][j].ModifyQ?
          ensures PatchReady(qs[1..][j].patch)
        {
          assert qs[j + 1] == qs[1..][j];
        }
      }
      ReadyBatch(s1, qs[1..], os[1..], xs[1..]);
    }
  }

  /** `verify_all` on lists of equal length: the number of passing answers
      and the graph after every update, in order. */
  function RunAll(s: Store, qs: seq<Query>, os: seq<Output>, xs: seq<Expected>): (r: (nat, Store))
    requires |os| == |qs| && |xs| == |qs| && BatchOk(s, qs, os, xs)
    ensures r.0 <= |qs|
    ensures Resolves(r.1)
    decreases |qs|
  {
    if |qs| == 0 then (0, s)
    else
      var (ok, s1) := Step(s, qs[0], os[0], xs[0]);
      var (c, s2) := RunAll(s1, qs[1..], os[1..], xs[1..]);
      ((if ok then 1 else 0) + c, s2)
  }

  /** `verify_all` at position `i`: the answer there is checked against the
      graph as it stands, and the rest of the batch against the graph the
      check leaves. */
  lemma RunAllStep(s: Store, qs: seq<Query>, os: seq<Output>, xs: seq<Expected>, i: int)
    requires |os| == |qs| && |xs| == |qs| && 0 <= i < |qs| && BatchOk(s, qs[i..], os[i..], xs[i..])
    ensures Fits(s, qs[i], os[i]) && BatchOk(Step(s, qs[i], os[i], xs[i]).1, qs[i + 1..], os[i + 1..], xs[i + 1..])
    ensures RunAll(s, qs[i..], os[i..], xs[i..]).0
            == (if Step(s, qs[i], os[i], xs[i]).0 then 1 else 0)
               + RunAll(Step(s, qs[i], os[i], xs[i]).1, qs[i + 1..], os[i + 1..], xs[i + 1..]).0
    ensures RunAll(s, qs[i..], os[i..], xs[i..]).1
            == RunAll(Step(s, qs[i], os[i], xs[i]).1, qs[i + 1..], os[i + 1..], xs[i + 1..]).1
  {
    assert qs[i..][0] == qs[i] && os[i..][0] == os[i] && xs[i..][0] == xs[i];
    assert qs[i..][1..] == qs[i + 1..] && os[i..][1..] == os[i + 1..] && xs[i..][1..] == xs[i + 1..];
  }

  /** A batch without update queries leaves the graph as it was. */
  lemma {:induction false} RunAllReadOnly(s: Store, qs: seq<Query>, os: seq<Output>, xs: seq<Expected>)
    requires |os| == |qs| && |xs| == |qs| && BatchOk(s, qs, os, xs)
    requires forall i :: 0 <= i < |qs| ==> !qs[i].RemoveQ? && !qs[i].ModifyQ?
    ensures RunAll(s, qs, os, xs).1 == s
  {
    if |qs| > 0 {
      assert forall i :: 0 <= i < |qs[1..]| ==> qs[1..][i] == qs[i + 1];
      RunAllReadOnly(s, qs[1..], os[1..], xs[1..]);
    }
  }

  /** Every answer of the batch passes, each checked on the graph the
      earlier ones left. */
  ghost predicate AllPass(s: Store, qs: seq<Query>, os: seq<Output>, xs: seq<Expected>)
    requires |os| == |qs| && |xs| == |qs| && BatchOk(s, qs, os, xs)
    decreases |qs|
  {
    |qs| == 0
    || (var (ok, s1) := Step(s, qs[0], os[0], xs[0]);
        ok && AllPass(s1, qs[1..], os[1..], xs[1..]))
  }

  /** Every answer passes exactly when the count reaches the batch size. */
  lemma {:induction false} RunAllAllPass(s: Store, qs: seq<Query>, os: seq<Output>, xs: seq<Expected>)
    requires |os| == |qs| && |xs| == |qs| && BatchOk(s, qs, os, xs)
    ensures RunAll(s, qs, os, xs).0 == |qs| <==> AllPass(s, qs, os, xs)
    decreases |qs|
  {
    if |qs| > 0 {
      var (ok, s1) := Step(s, qs[0], os[0], xs[0]);
      RunAllAllPass(s1, qs[1..], os[1..], xs[1..]);
      var r := RunAll(s1, qs[1..], os[1..], xs[1..]);
      assert r.0 <= |qs| - 1;
    }
  }

  /** `_load_nodes`: each node under its id, a later record replacing an
      earlier one. */
  function NodesOf(ns: seq<Node>): map<int, Node>
  {
    if |ns| == 0 then map[] else NodesOf(ns[..|ns| - 1])[ns[|ns| - 1].id := ns[|ns| - 1]]
  }

  /** The ids with a node are those of the file, and an id holds its last
      record. */
  lemma {:induction false} NodesOfSpec(ns: seq<Node>, id: int)
    ensures id in NodesOf(ns) <==> exists i :: 0 <= i < |ns| && ns[i].id == id
    ensures forall i :: 0 <= i < |ns| && ns[i].id == id && (forall j :: i < j < |ns| ==> ns[j].id != id)
              ==> NodesOf(ns)[id] == ns[i]
  {
    if |ns| > 0 {
      var n := |ns| - 1;
      var pre := ns[..n];
      NodesOfSpec(pre, id);
      assert forall i :: 0 <= i < n ==> pre[i] == ns[i];
      if id != ns[n].id && exists i :: 0 <= i < |ns| && ns[i].id == id {
        var i :| 0 <= i < |ns| && ns[i].id == id;
        assert i < n && pre[i].id == id;
      }
    }
  }

  /** The scan of `u`'s list for the first enabled entry heading to `v`. */
  method FindIn(edges: map<int, PyEdge>, adj: map<int, seq<(int, int)>>, u: int, v: int) returns (r: Option<int>)
    requires Resolves(Store(edges, adj))
    ensures r == FirstEnabled(edges, AdjOf(adj, u), v)
  {
    var es := if u in adj then adj[u] else [];
    var i := 0;
    while i < |es|
      invariant 0 <= i <= |es|
      invariant FirstEnabled(edges, es[i..], v) == FirstEnabled(edges, es, v)
    {
      var (edV, edId) := es[i];
      if edV == v && !edges[edId].disabled {
        return Some(edId);
      }
      assert es[i..][1..] == es[i + 1..];
      i := i + 1;
    }
    return None;
  }

  /** One hop of the total loop: the hop fails the total, or extends it by
      its cost. */
  method PathHop(st: Store, path: seq<int>, forbiddenRoads: set<string>, time: bool, i: nat, total: real)
    returns (stop: bool, next: real)
    requires Resolves(st) && i + 1 < |path| && (time ==> PathReady(st, path, forbiddenRoads, i + 1))
    requires PathCost(st, path, forbiddenRoads, time, i) == Some(total)
    ensures stop ==> PathCost(st, path, forbiddenRoads, time, i + 1) == None
    ensures !stop ==> PathCost(st, path, forbiddenRoads, time, i + 1) == Some(next)
  {
    var found := FindIn(st.edges, st.adj, path[i], path[i + 1]);
    if found.None? || st.edges[found.value].roadType in forbiddenRoads {
      PathCostFails(st, path, forbiddenRoads, time, i);
      return true, 0.0;
    }
    var e := st.edges[found.value];
    PathCostNext(st, path, forbiddenRoads, time, i, total, found.value);
    var c: real;
    if time {
      c := GetCrossTime(e, total);
    } else {
      c := e.length;
    }
    return false, total + c;
  }

  /** The total loop of `validate_shortest_path` on the graph's maps. */
  method PathTotalIn(st: Store, path: seq<int>, forbiddenRoads: set<string>, time: bool) returns (r: Option<real>)
    requires Resolves(st) && |path| >= 1 && (time ==> PathReady(st, path, forbiddenRoads, |path| - 1))
    ensures r == PathCost(st, path, forbiddenRoads, time, |path| - 1)
  {
    var total := 0.0;
    var i := 0;
    while i < |path| - 1
      invariant 0 <= i <= |path| - 1
      invariant time ==> PathReady(st, path, forbiddenRoads, i)
      invariant PathCost(st, path, forbiddenRoads, time, i) == Some(total)
    {
      if time {
        PathReadyPrefix(st, path, forbiddenRoads, |path| - 1, i + 1);
      }
      var stop;
      stop, total := PathHop(st, path, forbiddenRoads, time, i, total);
      if stop {
        PathCostStuck(st, path, forbiddenRoads, time, i + 1, |path| - 1);
        return None;
      }
      i := i + 1;
    }
    return Some(total);
  }

  /** The autograder's graph object. */
  class PyGraph {
    var nodes: map<int, Node>
    var edges: map<int, PyEdge>
    var roadsAdj: map<int, seq<(int, int)>>

    function State(): Store
      reads this
    {
      Store(edges, roadsAdj)
    }

    predicate Valid()
      reads this
    {
      Resolves(State())
    }

    /** `Graph(graph_json)`: the nodes by id (a later record replacing an
        earlier one) and then the edges of the file. */
    constructor (ns: seq<Node>, es: seq<PyEdge>)
      ensures Valid() && nodes == NodesOf(ns)
      ensures State() == LoadAll(Store(map[], map[]), es)
    {
      nodes := map[];
      edges := map[];
      roadsAdj := map[];
      new;
      LoadNodes(ns);
      LoadEdges(es);
    }

    /** `_load_nodes`. */
    method LoadNodes(ns: seq<Node>)
      modifies this
      requires nodes == map[]
      ensures State() == old(State()) && nodes == NodesOf(ns)
    {
      var i := 0;
      while i < |ns|
        invariant 0 <= i <= |ns| && State() == old(State())
        invariant nodes == NodesOf(ns[..i])
      {
        assert ns[..i + 1][..i] == ns[..i];
        nodes := nodes[ns[i].id := ns[i]];
        i := i + 1;
      }
      assert ns[..i] == ns;
    }

    /** `_add_edge`. */
    method AddEdge(e: PyEdge)
      modifies this
      ensures State() == AddOne(old(State()), e) && nodes == old(nodes)
    {
      edges := edges[e.id := e];
      var list := if e.u in roadsAdj then roadsAdj[e.u] else [];
      roadsAdj := roadsAdj[e.u := list + [(e.v, e.id)]];
    }

    /** `_load_edges`: each edge, then its mirror unless it is one-way. */
    method LoadEdges(es: seq<PyEdge>)
      modifies this
      requires Valid()
      ensures Valid() && State() == LoadAll(old(State()), es) && nodes == old(nodes)
    {
      var i := 0;
      while i < |es|
        invariant 0 <= i <= |es| && nodes == old(nodes)
        invariant State() == LoadAll(old(State()), es[..i])
      {
        var e := es[i];
        AddEdge(e);
        if !e.oneWay {
          AddEdge(Mirrored(e));
        }
        assert es[..i + 1][..i] == es[..i];
        i := i + 1;
      }
      assert es[..i] == es;
      LoadAllKeeps(old(State()), es);
    }

    /** `remove_edge_uv`: true exactly for a known id, even one already
        disabled. */
    method RemoveEdgeUv(edgeId: int) returns (removed: bool)
      modifies this
      requires Valid()
      ensures removed <==> edgeId in old(edges)
      ensures Valid() && State() == Disable(old(State()), edgeId) && nodes == old(nodes)
    {
      removed := false;
      if edgeId in edges {
        edges := edges[edgeId := edges[edgeId].(disabled := true)];
        removed := true;
      }
    }

    /** `modify_edge`: false for an unknown id; otherwise the patch is
        applied and the edge enabled. */
    method ModifyEdge(edgeId: int, patch: Patch) returns (ok: bool)
      modifies this
      requires Valid()
      ensures ok <==> edgeId in old(edges)
      ensures Valid() && State() == Modify(old(State()), edgeId, patch) && nodes == old(nodes)
    {
      if edgeId !in edges {
        return false;
      }
      var e := ApplyPatch(edges[edgeId], patch);
      edges := edges[edgeId := e.(disabled := false)];
      ok := true;
    }

    /** The inner loop over the entries of `u`: the first usable one
        towards `v`. */
    method FindEntry(u: int, v: int) returns (r: Option<int>)
      requires Valid()
      ensures r == FirstEnabled(edges, AdjOf(roadsAdj, u), v)
    {
      r := FindIn(edges, roadsAdj, u, v);
    }

    /** `validate_path`. */
    method ValidatePath(vertices: seq<int>, forbiddenNodes: set<int>, forbiddenRoadTypes: set<string>,
                        src: int, trg: int) returns (ok: bool)
      requires Valid()
      ensures ok == ValidPath(State(), vertices, forbiddenNodes, forbiddenRoadTypes, src, trg)
    {
      if |vertices| < 2 {
        return false;
      }
      if vertices[0] in forbiddenNodes || vertices[|vertices| - 1] in forbiddenNodes {
        return false;
      }
      if vertices[0] != src || vertices[|vertices| - 1] != trg {
        return false;
      }
      var i := 0;
      while i < |vertices| - 1
        invariant 0 <= i <= |vertices| - 1
        invariant forall k :: 0 <= k < i ==> HopOk(State(), vertices[k], vertices[k + 1], forbiddenNodes, forbiddenRoadTypes)
      {
        var u, v := vertices[i], vertices[i + 1];
        if v in forbiddenNodes {
          return false;
        }
        var r := FindEntry(u, v);
        if r.None? || edges[r.value].roadType in forbiddenRoadTypes {
          return false;
        }
        i := i + 1;
      }
      return true;
    }

    /** The total loop of `validate_shortest_path` over a whole path. */
    method PathTotal(path: seq<int>, forbiddenRoads: set<string>, time: bool) returns (r: Option<real>)
      requires Valid() && |path| >= 1 && (time ==> PathReady(State(), path, forbiddenRoads, |path| - 1))
      ensures r == PathCost(State(), path, forbiddenRoads, time, |path| - 1)
    {
      r := PathTotalIn(State(), path, forbiddenRoads, time);
    }

    /** `validate_shortest_path`. */
    method ValidateShortestPath(q: SpQuery, out: SpOut, expected: SpExpected) returns (ok: bool)
      requires Valid() && AnswerReady(State(), q, out)
      ensures ok == Accepts(State(), q, out, expected)
    {
      if out.possible.None? {
        return false;
      }
      if !out.possible.value {
        return !expected.possible;
      }
      var valid := ValidatePath(out.path, q.forbiddenNodes, q.forbiddenRoads, q.source, q.target);
      if !valid {
        return false;
      }
      var total := PathTotal(out.path, q.forbiddenRoads, q.timeMode);
      if total.None? {
        return false;
      }
      var reported := Reported(out, q.timeMode);
      if reported.None? {
        return false;
      }
      if Abs(total.value - reported.value) > REPORT_TOLERANCE {
        return false;
      }
      if expected.total - total.value > EXPECTED_TOLERANCE {
        return true;
      }
      if total.value - expected.total > EXPECTED_TOLERANCE {
        return false;
      }
      return true;
    }

    /** `sorted(a) == sorted(b)`. */
    method SortedEqual(a: seq<int>, b: seq<int>) returns (eq: bool)
      ensures eq == SameItems(a, b)
    {
      Sorting.Preorders();
      var sa := Sorting.SortBy(a, Sorting.IntLe());
      var sb := Sorting.SortBy(b, Sorting.IntLe());
      Sorting.SortedUnique(sa, sb);
      eq := sa == sb;
    }

    /** `verify`: one answer checked, an update query applied. */
    method Verify(q: Query, out: Output, expected: Expected) returns (ok: bool)
      modifies this
      requires Valid() && Fits(State(), q, out)
      ensures (ok, State()) == Step(old(State()), q, out, expected)
      ensures Valid() && nodes == old(nodes)
    {
      match q
      case RemoveQ(id) =>
        var removed := RemoveEdgeUv(id);
        ok := removed == out.done;
      case ModifyQ(id, p) =>
        var modified := ModifyEdge(id, p);
        ok := modified == out.done;
      case PathQ(sp) =>
        ok := ValidateShortestPath(sp, out.sp, expected.sp);
      case KnnQ(sh) =>
        if sh {
          ok := SortedEqual(out.nodes, expected.nodes);
        } else {
          ok := SortedEqual(out.nodes, expected.euclidian);
          if !ok {
            ok := SortedEqual(out.nodes, expected.haversine);
          }
        }
      case OtherQ =>
        ok := false;
    }

    /** `verify_all`: the first `min` of the three lengths answers, checked
        in order against the graph as the updates leave it. */
    method VerifyAll(queries: seq<Query>, outputs: seq<Output>, expected: seq<Expected>)
      returns (correct: nat, n: nat)
      modifies this
      requires Valid()
      requires var m := Min3(|queries|, |outputs|, |expected|);
               BatchOk(State(), queries[..m], outputs[..m], expected[..m])
      ensures n == Min3(|queries|, |outputs|, |expected|) && correct <= n
      ensures (correct, State()) == RunAll(old(State()), queries[..n], outputs[..n], expected[..n])
      ensures Valid() && nodes == old(nodes)
    {
      n := Min3(|queries|, |outputs|, |expected|);
      var qs, os, xs := queries[..n], outputs[..n], expected[..n];
      ghost var s0 := State();
      correct := 0;
      var i := 0;
      while i < n
        invariant 0 <= i <= n && Valid() && nodes == old(nodes)
        invariant BatchOk(State(), qs[i..], os[i..], xs[i..])
        invariant correct + RunAll(State(), qs[i..], os[i..], xs[i..]).0 == RunAll(s0, qs, os, xs).0
        invariant RunAll(State(), qs[i..], os[i..], xs[i..]).1 == RunAll(s0, qs, os, xs).1
      {
        var check := VerifyAt(qs, os, xs, i);
        if check {
          correct := correct + 1;
        }
        i := i + 1;
      }
      assert qs[n..] == [];
    }

    /** One pass of the loop of `verify_all`: the answer at `i` checked, and
        the rest of the batch left to the graph the check leaves. */
    method VerifyAt(qs: seq<Query>, os: seq<Output>, xs: seq<Expected>, i: int) returns (check: bool)
      modifies this
      requires Valid() && |os| == |qs| && |xs| == |qs| && 0 <= i < |qs| && BatchOk(State(), qs[i..], os[i..], xs[i..])
      ensures Valid() && nodes == old(nodes) && BatchOk(State(), qs[i + 1..], os[i + 1..], xs[i + 1..])
      ensures RunAll(old(State()), qs[i..], os[i..], xs[i..]).0
              == (if check then 1 else 0) + RunAll(State(), qs[i + 1..], os[i + 1..], xs[i + 1..]).0
      ensures RunAll(old(State()), qs[i..], os[i..], xs[i..]).1
              == RunAll(State(), qs[i + 1..], os[i + 1..], xs[i + 1..]).1
    {
      RunAllStep(State(), qs, os, xs, i);
      check := Verify(qs[i], os[i], xs[i]);
    }
  }

  function Min3(a: nat, b: nat, c: nat): (m: nat)
    ensures m <= a && m <= b && m <= c && (m == a || m == b || m == c)
  {
    if a <= b && a <= c then a else if b <= c then b else c
  }
}
