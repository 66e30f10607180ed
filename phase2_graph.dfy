// The Phase-2 graph object. It shares the Phase-1 store layout but differs
// in behaviour: a load clears all four member maps and gives every node an
// adjacency vector, a removal does not look at the tombstone table, a
// modification validates nothing and honours `oneway`, and the adjacency
// entries from one node to another can be pruned without touching the
// index.
module Phase2Graph {
  import opened Common
  import opened EdgeStore

  /** The node table a load builds: the last record of an id wins. */
  function LoadNodes(ns: seq<Node>): map<int, Node>
    decreases |ns|
  {
    if |ns| == 0 then map[] else LoadNodes(ns[..|ns| - 1])[ns[|ns| - 1].id := ns[|ns| - 1]]
  }

  /** `adj[node.id] = {}` for every node. */
  function EmptyAdj(nodes: map<int, Node>): (adj: map<int, seq<Edge>>)
    ensures adj.Keys == nodes.Keys && forall x :: x in adj ==> adj[x] == []
  {
    map x | x in nodes :: []
  }

  /** The store a load of the records builds from scratch. */
  function Load(ns: seq<Node>, es: seq<Edge>): Store
  {
    Store(LoadAdj(EmptyAdj(LoadNodes(ns)), es), LoadIndex(es), map[])
  }

  /** The node table holds every record's id, filed under it. */
  lemma {:induction false} LoadNodesKeys(ns: seq<Node>)
    ensures forall id :: id in LoadNodes(ns) ==> LoadNodes(ns)[id].id == id
    ensures forall k :: 0 <= k < |ns| ==> ns[k].id in LoadNodes(ns)
    decreases |ns|
  {
    if |ns| > 0 {
      var p := ns[..|ns| - 1];
      LoadNodesKeys(p);
      forall k | 0 <= k < |ns| - 1
        ensures ns[k].id in LoadNodes(ns)
      {
        assert p[k] == ns[k];
      }
    }
  }

  lemma {:induction false} LoadAdjKeys(adj0: map<int, seq<Edge>>, es: seq<Edge>)
    ensures adj0.Keys <= LoadAdj(adj0, es).Keys
    decreases |es|
  {
    if |es| > 0 {
      LoadAdjKeys(adj0, es[..|es| - 1]);
    }
  }

  /** A load of records with distinct edge ids yields a consistent store
      with an empty tombstone table, an adjacency vector for every node and
      each record in the index. */
  lemma LoadSpec(ns: seq<Node>, es: seq<Edge>)
    requires DistinctIds(es)
    ensures var s := Load(ns, es);
            Consistent(s) && s.removed == map[]
            && (forall k :: 0 <= k < |ns| ==> ns[k].id in s.adj)
            && (forall k :: 0 <= k < |es| ==> es[k].id in s.index)
  {
    var nodes := LoadNodes(ns);
    LoadOk(EmptyAdj(nodes), es);
    LoadIndexKeys(es);
    LoadNodesKeys(ns);
    LoadAdjKeys(EmptyAdj(nodes), es);
    forall k | 0 <= k < |es|
      ensures es[k].id in LoadIndex(es)
    {
      assert exists j :: 0 <= j < |es| && es[j].id == es[k].id;
    }
  }

  /** Phase-2 patching: each recognised key replaces the old value with no
      check at all; the id and the endpoints stay. */
  function PatchEdge(e: Edge, p: Patch): (r: Edge)
    ensures r.id == e.id && r.u == e.u && r.v == e.v
  {
    var e1 := if p.length.Some? then e.(length := p.length.value) else e;
    var e2 := if p.averageTime.Some? then e1.(averageTime := p.averageTime.value) else e1;
    var e3 := if p.roadType.Some? then e2.(roadType := p.roadType.value) else e2;
    var e4 := if p.oneway.Some? then e3.(oneway := p.oneway.value) else e3;
    if p.speedProfile.Some? then e4.(speedProfile := p.speedProfile.value) else e4
  }

  /** What a patch changes: the recognised keys, and nothing else. */
  lemma PatchEdgeSpec(e: Edge, p: Patch)
    ensures var r := PatchEdge(e, p);
            r.length == (if p.length.Some? then p.length.value else e.length)
            && r.averageTime == (if p.averageTime.Some? then p.averageTime.value else e.averageTime)
            && r.roadType == (if p.roadType.Some? then p.roadType.value else e.roadType)
            && r.oneway == (if p.oneway.Some? then p.oneway.value else e.oneway)
            && r.speedProfile == (if p.speedProfile.Some? then p.speedProfile.value else e.speedProfile)
            && (EmptyPatch(p) ==> r == e)
  {
  }

  /** `removeEdge`: refused for an id that is not live; otherwise the edge
      is tombstoned, its entries erased and its index entry dropped. */
  function Remove(s: Store, id: int): Outcome
  {
    if id !in s.index then Outcome(false, s)
    else
      var e := s.index[id];
      Outcome(true, Store(Detach(s.adj, e.u, e.v, !e.oneway, id), s.index - {id}, s.removed[id := e]))
  }

  /** `modifyEdge`: a live or tombstoned edge (the tombstone is dropped) is
      patched, its entries are erased at both ends whatever its direction,
      and the patched edge is attached under its possibly new `oneway`. */
  function Modify(s: Store, id: int, p: Patch): Outcome
  {
    if id !in s.index && id !in s.removed then Outcome(false, s)
    else
      var e := if id in s.index then s.index[id] else s.removed[id];
      var e' := PatchEdge(e, p);
      var removed' := if id in s.index then s.removed else s.removed - {id};
      Outcome(true, Store(Attach(Detach(s.adj, e.u, e.v, true, id), e'), s.index[id := e'], removed'))
  }

  /** The entries of `adj[u]` not leading to `v`, in order. */
  function WithoutTarget(s: seq<Edge>, v: int): seq<Edge>
    decreases |s|
  {
    if |s| == 0 then []
    else WithoutTarget(s[..|s| - 1], v) + (if s[|s| - 1].v == v then [] else [s[|s| - 1]])
  }

  /** The kept entries are exactly those not leading to `v`. */
  lemma {:induction false} WithoutTargetMembers(s: seq<Edge>, v: int)
    ensures forall a :: a in WithoutTarget(s, v) <==> a in s && a.v != v
    decreases |s|
  {
    if |s| > 0 {
      var p := s[..|s| - 1];
      WithoutTargetMembers(p, v);
      TakeDrop(s, |s| - 1);
      assert s == p + [s[|s| - 1]];
    }
  }

  /** `removeEdgeBetween(u, v)`: refused when `u` has no vector; otherwise
      its entries leading to `v` are erased and the answer says whether
      there was one. */
  function RemoveBetween(s: Store, u: int, v: int): Outcome
  {
    if u !in s.adj then Outcome(false, s)
    else Outcome(exists a :: a in s.adj[u] && a.v == v,
                 Store(s.adj[u := WithoutTarget(s.adj[u], v)], s.index, s.removed))
  }

  /** The patch steps of `modifyEdge`, key by key. */
  method ApplyPatch(e0: Edge, p: Patch) returns (e: Edge)
    ensures e == PatchEdge(e0, p)
  {
    e := e0;
    if p.length.Some? {
      e := e.(length := p.length.value);
    }
    if p.averageTime.Some? {
      e := e.(averageTime := p.averageTime.value);
    }
    if p.roadType.Some? {
      e := e.(roadType := p.roadType.value);
    }
    if p.oneway.Some? {
      e := e.(oneway := p.oneway.value);
    }
    if p.speedProfile.Some? {
      e := e.(speedProfile := p.speedProfile.value);
    }
  }

  lemma WithoutTargetStep(vec: seq<Edge>, i: int, v: int)
    requires 0 <= i < |vec|
    ensures WithoutTarget(vec[..i + 1], v) == WithoutTarget(vec[..i], v) + (if vec[i].v == v then [] else [vec[i]])
  {
    TakeStep(vec, i);
    if vec[i].v == v {
      JoinNone(WithoutTarget(vec[..i], v), []);
    }
  }

  /** The erase loop of `removeEdgeBetween` over one vector: the entries not
      leading to `v`, and whether one did. */
  method PruneTarget(vec: seq<Edge>, v: int) returns (kept: seq<Edge>, removed: bool)
    ensures kept == WithoutTarget(vec, v)
    ensures removed <==> exists a :: a in vec && a.v == v
  {
    removed := false;
    kept := [];
    var i := 0;
    while i < |vec|
      invariant 0 <= i <= |vec|
      invariant kept == WithoutTarget(vec[..i], v)
      invariant removed <==> exists k :: 0 <= k < i && vec[k].v == v
    {
      WithoutTargetStep(vec, i, v);
      if vec[i].v == v {
        removed := true;
      } else {
        kept := kept + [vec[i]];
      }
      i := i + 1;
    }
    assert vec[..i] == vec;
    if removed {
      var k :| 0 <= k < i && vec[k].v == v;
      assert vec[k] in vec;
    }
  }

  /** A removal succeeds exactly for a live id; it tombstones the edge,
      erases exactly the entries carrying the id and keeps the store
      consistent, so a second removal of the same id fails. */
  lemma RemoveSpec(s: Store, id: int)
    requires Consistent(s)
    ensures var r := Remove(s, id);
            (r.ok <==> id in s.index)
            && (!r.ok ==> r.store == s)
            && Consistent(r.store)
            && (r.ok ==> id !in r.store.index && id in r.store.removed && r.store.removed[id] == s.index[id]
                         && r.store.index == s.index - {id}
                         && (forall x, a :: a in AdjAt(r.store.adj, x) <==> a in AdjAt(s.adj, x) && a.id != id)
                         && !Remove(r.store, id).ok)
  {
    if id in s.index {
      var e := s.index[id];
      var st := Store(Detach(s.adj, e.u, e.v, !e.oneway, id), s.index - {id}, s.removed[id := e]);
      TombstoneOk(s, id, !e.oneway);
      assert Remove(s, id).store == st;
      assert id !in st.index;
    }
  }

  /** A modification succeeds exactly for an id that is live or
      tombstoned. It keeps the store consistent, files the patched edge in
      the index, drops any tombstone, leaves at every node exactly the
      entries an attach of the patched edge makes, and keeps every other
      entry where it was. */
  lemma ModifySpec(s: Store, id: int, p: Patch)
    requires Consistent(s)
    ensures var r := Modify(s, id, p);
            (r.ok <==> id in s.index || id in s.removed)
            && (!r.ok ==> r.store == s)
            && Consistent(r.store)
            && (r.ok ==>
                  var e' := PatchEdge(if id in s.index then s.index[id] else s.removed[id], p);
                  r.store.index == s.index[id := e'] && r.store.removed == s.removed - {id}
                  && Replaced(r.store.adj, id, e') && OthersKept(r.store.adj, s.adj, id))
  {
    if id in s.index {
      var e' := PatchEdge(s.index[id], p);
      ReplaceLiveAt(s, id, e', true);
      assert s.removed - {id} == s.removed;
    } else if id in s.removed {
      var e := s.removed[id];
      var e' := PatchEdge(e, p);
      var d := Detach(s.adj, e.u, e.v, true, id);
      DetachNone(s, e.u, e.v, true, id);
      ReplaceAfter(s, d, s.index, id, e', Store(Attach(d, e'), s.index[id := e'], s.removed - {id}));
    }
  }

  /** Patching a live two-way road between two nodes to one-way drops its
      swapped entry; patching a one-way road to two-way adds one. */
  lemma OnewayFlip(s: Store, id: int, p: Patch)
    requires Consistent(s) && id in s.index && s.index[id].u != s.index[id].v && p.oneway.Some?
    ensures var e := s.index[id];
            var r := Modify(s, id, p).store;
            WithId(AdjAt(r.adj, e.v), id) == (if p.oneway.value then [] else [Reversed(PatchEdge(e, p))])
            && WithId(AdjAt(r.adj, e.u), id) == [PatchEdge(e, p)]
  {
    ModifySpec(s, id, p);
  }

  /** The spec's round trip: removing an edge and then modifying it
      restores it, patched, with its entries. */
  lemma RemoveThenRestore(s: Store, id: int, p: Patch)
    requires Consistent(s) && id in s.index
    ensures var t := Remove(s, id).store;
            var r := Modify(t, id, p);
            r.ok && r.store.index[id] == PatchEdge(s.index[id], p) && id !in r.store.removed
            && Consistent(r.store) && Present(r.store.adj, r.store.index[id])
  {
    RemoveSpec(s, id);
    var t := Remove(s, id).store;
    ModifySpec(t, id, p);
    var r := Modify(t, id, p).store;
    assert Complete(r.adj, r.index);
  }

  /** Pruning the entries from `u` to `v` reports whether one existed,
      changes no other vector and neither table, and leaves every remaining
      entry sound; the index can then hold edges with no entry left. */
  lemma RemoveBetweenSpec(s: Store, u: int, v: int)
    requires Sound(s.adj, s.index)
    ensures var r := RemoveBetween(s, u, v);
            (r.ok <==> u in s.adj && exists a :: a in s.adj[u] && a.v == v)
            && r.store.index == s.index && r.store.removed == s.removed
            && (forall x :: x != u ==> AdjAt(r.store.adj, x) == AdjAt(s.adj, x))
            && (forall a :: a in AdjAt(r.store.adj, u) <==> a in AdjAt(s.adj, u) && a.v != v)
            && Sound(r.store.adj, r.store.index)
  {
    var r := RemoveBetween(s, u, v);
    if u in s.adj {
      WithoutTargetMembers(s.adj[u], v);
      forall x, k | x in r.store.adj && 0 <= k < |r.store.adj[x]|
        ensures EntryOk(s.index, x, r.store.adj[x][k])
      {
        var a := r.store.adj[x][k];
        assert a in s.adj[x];
        SoundPlaces(s.adj, s.index, x, a);
      }
    }
  }

  lemma PrunedEdgeStaysIndexed()
    ensures var e := Edge(5, 1, 2, 4.0, 2.0, [], true, "residential");
            var s := Store(map[1 := [e], 2 := []], map[5 := e], map[]);
            var r := RemoveBetween(s, 1, 2);
            Consistent(s) && r.ok && 5 in r.store.index && !Complete(r.store.adj, r.store.index)
  {
    var e := Edge(5, 1, 2, 4.0, 2.0, [], true, "residential");
    var s := Store(map[1 := [e], 2 := []], map[5 := e], map[]);
    assert Sound(s.adj, s.index) by {
      forall x, k | x in s.adj && 0 <= k < |s.adj[x]|
        ensures EntryOk(s.index, x, s.adj[x][k])
      {
        assert x == 1;
      }
    }
    assert Present(s.adj, e);
    var r := RemoveBetween(s, 1, 2);
    WithoutTargetMembers(s.adj[1], 2);
    assert e in s.adj[1];
    assert e !in r.store.adj[1];
    assert !Present(r.store.adj, e);
  }

  class Graph {
    var nodes: map<int, Node>
    var adj: map<int, seq<Edge>>
    var edgeById: map<int, Edge>
    var removedEdges: map<int, Edge>

    function State(): Store
      reads this
    {
      Store(adj, edgeById, removedEdges)
    }

    ghost predicate Valid()
      reads this
    {
      Consistent(State())
    }

    constructor ()
      ensures nodes == map[] && State() == Store(map[], map[], map[]) && Valid()
    {
      nodes, adj, edgeById, removedEdges := map[], map[], map[], map[];
    }

    /** `loadFromJson` on parsed records: all four maps are rebuilt. */
    method LoadFromJson(ns: seq<Node>, es: seq<Edge>)
      modifies this
      ensures nodes == LoadNodes(ns) && State() == Load(ns, es)
    {
      var n: map<int, Node>, a: map<int, seq<Edge>>, ix: map<int, Edge> := map[], map[], map[];
      var i := 0;
      while i < |ns|
        invariant 0 <= i <= |ns|
        invariant n == LoadNodes(ns[..i]) && a == EmptyAdj(n)
      {
        n := n[ns[i].id := ns[i]];
        a := a[ns[i].id := []];
        assert ns[..i + 1][..i] == ns[..i];
        i := i + 1;
      }
      assert ns[..i] == ns;
      var k := 0;
      while k < |es|
        invariant 0 <= k <= |es|
        invariant a == LoadAdj(EmptyAdj(n), es[..k]) && ix == LoadIndex(es[..k])
      {
        var e := es[k];
        a := a[e.u := AdjAt(a, e.u) + [e]];
        if !e.oneway {
          a := a[e.v := AdjAt(a, e.v) + [Reversed(e)]];
        }
        ix := ix[e.id := e];
        assert es[..k + 1][..k] == es[..k];
        k := k + 1;
      }
      assert es[..k] == es;
      nodes, adj, edgeById, removedEdges := n, a, ix, map[];
    }

    method RemoveEdge(edgeId: int) returns (ok: bool)
      modifies this
      ensures Outcome(ok, State()) == Remove(old(State()), edgeId) && nodes == old(nodes)
    {
      if edgeId !in edgeById {
        return false;
      }
      var e := edgeById[edgeId];
      removedEdges := removedEdges[edgeId := e];
      adj := adj[e.u := WithoutId(AdjAt(adj, e.u), edgeId)];
      if !e.oneway {
        adj := adj[e.v := WithoutId(AdjAt(adj, e.v), edgeId)];
      }
      edgeById := edgeById - {edgeId};
      return true;
    }

    method ModifyEdge(edgeId: int, patch: Patch) returns (ok: bool)
      modifies this
      ensures Outcome(ok, State()) == Modify(old(State()), edgeId, patch) && nodes == old(nodes)
    {
      var e: Edge;
      var rm := removedEdges;
      if edgeId !in edgeById {
        if edgeId in rm {
          e := rm[edgeId];
          rm := rm - {edgeId};
        } else {
          return false;
        }
      } else {
        e := edgeById[edgeId];
      }
      var e' := ApplyPatch(e, patch);
      // erase at both ends whatever the direction, then push anew
      adj, edgeById, removedEdges := Attach(Detach(adj, e.u, e.v, true, edgeId), e'), edgeById[edgeId := e'], rm;
      return true;
    }

    /** `removeEdgeBetween`: the erase loop over `adj[u]` with the captured
        `removed` flag. */
    method RemoveEdgeBetween(u: int, v: int) returns (removed: bool)
      modifies this
      ensures Outcome(removed, State()) == RemoveBetween(old(State()), u, v) && nodes == old(nodes)
    {
      if u !in adj {
        return false;
      }
      var kept;
      kept, removed := PruneTarget(adj[u], v);
      adj := adj[u := kept];
    }

    /** The id of a node closest to the point, or -1 when no node lies
        within the 1e18 starting bound (distances are compared squared). */
    method NearestNodeByEuclid(lat: real, lon: real) returns (best: int)
      ensures best != -1 ==> NearestOk(nodes, lat, lon, Fin(SENTINEL * SENTINEL), Some(best))
      ensures best == -1 ==>
                NearestOk(nodes, lat, lon, Fin(SENTINEL * SENTINEL), None)
                || NearestOk(nodes, lat, lon, Fin(SENTINEL * SENTINEL), Some(-1))
    {
      var b := ScanNearest(nodes, lat, lon, Fin(SENTINEL * SENTINEL));
      best := if b.Some? then b.value else -1;
    }
  }
}
