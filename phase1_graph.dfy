// The Phase-1 graph object: nodes, adjacency vectors, the live index and
// the tombstone table, with loading, edge removal, edge modification (and
// implicit restore) and the nearest-node scan.
module Phase1Graph {
  import opened Common
  import opened EdgeStore

  /** The patch as Phase-1 applies it: `length` and `average_time` must be
      positive, `speed_profile` and `road_type` replace the old values, and
      every other key (`oneway` included) is ignored. */
  function PatchEdge(e: Edge, p: Patch): Option<Edge>
  {
    if p.length.Some? && p.length.value <= 0.0 then None
    else if p.averageTime.Some? && p.averageTime.value <= 0.0 then None
    else
      var e1 := if p.length.Some? then e.(length := p.length.value) else e;
      var e2 := if p.averageTime.Some? then e1.(averageTime := p.averageTime.value) else e1;
      var e3 := if p.speedProfile.Some? then e2.(speedProfile := p.speedProfile.value) else e2;
      Some(if p.roadType.Some? then e3.(roadType := p.roadType.value) else e3)
  }

  lemma PatchEdgeSpec(e: Edge, p: Patch)
    ensures PatchEdge(e, p).None? <==>
              (p.length.Some? && p.length.value <= 0.0) || (p.averageTime.Some? && p.averageTime.value <= 0.0)
    ensures PatchEdge(e, p).Some? ==>
              var r := PatchEdge(e, p).value;
              r.id == e.id && r.u == e.u && r.v == e.v && r.oneway == e.oneway
              && r.length == (if p.length.Some? then p.length.value else e.length)
              && r.averageTime == (if p.averageTime.Some? then p.averageTime.value else e.averageTime)
              && r.speedProfile == (if p.speedProfile.Some? then p.speedProfile.value else e.speedProfile)
              && r.roadType == (if p.roadType.Some? then p.roadType.value else e.roadType)
  {
  }

  /** The patch steps of `modifyEdge`, key by key: a non-positive `length`
      or `average_time` stops the update. */
  method ApplyPatch(e0: Edge, p: Patch) returns (r: Option<Edge>)
    ensures r == PatchEdge(e0, p)
  {
    var e := e0;
    if p.length.Some? {
      if p.length.value <= 0.0 {
        return None;
      }
      e := e.(length := p.length.value);
    }
    if p.averageTime.Some? {
      if p.averageTime.value <= 0.0 {
        return None;
      }
      e := e.(averageTime := p.averageTime.value);
    }
    if p.speedProfile.Some? {
      e := e.(speedProfile := p.speedProfile.value);
    }
    if p.roadType.Some? {
      e := e.(roadType := p.roadType.value);
    }
    return Some(e);
  }

  /** `removeEdge`: refused for an id that is not live or is already
      tombstoned; otherwise the edge is tombstoned, its entries erased and
      its index entry dropped. */
  function Remove(s: Store, id: int): Outcome
  {
    if id !in s.index || id in s.removed then Outcome(false, s)
    else
      var e := s.index[id];
      Outcome(true, Store(Detach(s.adj, e.u, e.v, !e.oneway, id), s.index - {id}, s.removed[id := e]))
  }

  /** `modifyEdge` as written: an empty patch on a live edge is refused up
      front, but a non-positive `length` or `average_time` is refused only
      after the live edge's entries, or the tombstone, were already erased. */
  function ModifyAsWritten(s: Store, id: int, p: Patch): Outcome
  {
    if id in s.index && EmptyPatch(p) then Outcome(false, s)
    else if id in s.index then
      var e := s.index[id];
      var adj1 := Detach(s.adj, e.u, e.v, !e.oneway, id);
      match PatchEdge(e, p)
      case None => Outcome(false, Store(adj1, s.index, s.removed))
      case Some(e') => Outcome(true, Store(Attach(adj1, e'), s.index[id := e'], s.removed))
    else if id !in s.removed then Outcome(false, s)
    else
      var e := s.removed[id];
      var removed1 := s.removed - {id};
      match PatchEdge(e, p)
      case None => Outcome(false, Store(s.adj, s.index, removed1))
      case Some(e') => Outcome(true, Store(Attach(s.adj, e'), s.index[id := e'], removed1))
  }

  /** `modifyEdge` with the patch validated before anything is erased: a
      refused patch leaves the store as it was. */
  function ModifyChecked(s: Store, id: int, p: Patch): Outcome
  {
    if id in s.index && EmptyPatch(p) then Outcome(false, s)
    else if id in s.index then
      var e := s.index[id];
      match PatchEdge(e, p)
      case None => Outcome(false, s)
      case Some(e') => Outcome(true, Store(Attach(Detach(s.adj, e.u, e.v, !e.oneway, id), e'), s.index[id := e'], s.removed))
    else if id !in s.removed then Outcome(false, s)
    else
      var e := s.removed[id];
      match PatchEdge(e, p)
      case None => Outcome(false, s)
      case Some(e') => Outcome(true, Store(Attach(s.adj, e'), s.index[id := e'], s.removed - {id}))
  }

  /** Loading records with distinct ids, none of them tombstoned, gives a
      consistent store: both entries of a two-way road, the forward entry of
      a one-way road, and the index holding the record. */
  lemma LoadSpec(es: seq<Edge>, removed: map<int, Edge>)
    requires DistinctIds(es) && IdsAgree(removed)
    requires forall k :: 0 <= k < |es| ==> es[k].id !in removed
    ensures Consistent(Store(LoadAdj(map[], es), LoadIndex(es), removed))
    ensures forall k :: 0 <= k < |es| ==> es[k].id in LoadIndex(es) && LoadIndex(es)[es[k].id] == es[k]
  {
    LoadOk(map[], es);
    LoadApart(es, removed);
    forall k | 0 <= k < |es|
      ensures es[k].id in LoadIndex(es) && LoadIndex(es)[es[k].id] == es[k]
    {
      LoadLast(es, k);
    }
  }

  /** No loaded id is tombstoned. */
  lemma LoadApart(es: seq<Edge>, removed: map<int, Edge>)
    requires forall k :: 0 <= k < |es| ==> es[k].id !in removed
    ensures IdsAgree(LoadIndex(es)) && LoadIndex(es).Keys !! removed.Keys
  {
    LoadIndexKeys(es);
    forall i | i in LoadIndex(es)
      ensures i !in removed
    {
      var k :| 0 <= k < |es| && es[k].id == i;
    }
  }

  lemma {:induction false} LoadLast(es: seq<Edge>, k: int)
    requires DistinctIds(es) && 0 <= k < |es|
    ensures es[k].id in LoadIndex(es) && LoadIndex(es)[es[k].id] == es[k]
    decreases |es|
  {
    var p := es[..|es| - 1];
    if k < |es| - 1 {
      assert DistinctIds(p) && p[k] == es[k];
      LoadLast(p, k);
    }
  }

  /** A removal succeeds exactly for a live id; it tombstones the edge,
      erases exactly the entries carrying the id and keeps the store
      consistent, and a second removal of the same id fails. */
  lemma RemoveSpec(s: Store, id: int)
    requires Consistent(s)
    ensures var r := Remove(s, id);
            (r.ok <==> id in s.index)
            && (!r.ok ==> r.store == s)
            && Consistent(r.store)
            && (r.ok ==> id !in r.store.index && id in r.store.removed && r.store.removed[id] == s.index[id]
                         && r.store.index == s.index - {id}
                         && (forall x, a :: a in AdjAt(r.store.adj, x) <==> a in AdjAt(s.adj, x) && a.id != id)
                         && !Remove(r.store, id).ok)
  {
    if id in s.index {
      var e := s.index[id];
      var st := Store(Detach(s.adj, e.u, e.v, !e.oneway, id), s.index - {id}, s.removed[id := e]);
      TombstoneOk(s, id, !e.oneway);
      assert Remove(s, id).store == st;
      assert id !in st.index;
    }
  }

  lemma ReplaceLive(s: Store, id: int, e': Edge)
    requires Consistent(s) && e'.id == id && id in s.index
    ensures var e := s.index[id];
            var r := Store(Attach(Detach(s.adj, e.u, e.v, !e.oneway, id), e'), s.index[id := e'], s.removed);
            Consistent(r)
            && Replaced(r.adj, id, e')
            && OthersKept(r.adj, s.adj, id)
  {
    ReplaceLiveAt(s, id, e', !s.index[id].oneway);
  }

  lemma ReplaceRestore(s: Store, id: int, e': Edge)
    requires Consistent(s) && e'.id == id && id !in s.index && id in s.removed
    ensures var r := Store(Attach(s.adj, e'), s.index[id := e'], s.removed - {id});
            Consistent(r)
            && Replaced(r.adj, id, e')
            && OthersKept(r.adj, s.adj, id)
  {
    NoEntriesFresh(s.adj, s.index, id);
    ReplaceAfter(s, s.adj, s.index, id, e', Store(Attach(s.adj, e'), s.index[id := e'], s.removed - {id}));
  }

  /** The corrected modification: it succeeds exactly when the id is live
      with a non-empty patch, or tombstoned, and the patch is valid; a
      refusal changes nothing, a success restores or replaces the edge, and
      the store stays consistent either way. */
  lemma ModifyCheckedSpec(s: Store, id: int, p: Patch)
    requires Consistent(s)
    ensures var r := ModifyChecked(s, id, p);
            (r.ok <==> ((id in s.index && !EmptyPatch(p)) || id in s.removed)
                       && PatchEdge(if id in s.index then s.index[id] else s.removed[id], p).Some?)
            && (!r.ok ==> r.store == s)
            && Consistent(r.store)
            && (r.ok ==> r.store.index[id] == PatchEdge(if id in s.index then s.index[id] else s.removed[id], p).value
                         && id !in r.store.removed
                         && forall x :: WithId(AdjAt(r.store.adj, x), id) == New(r.store.index[id], x))
  {
    var r := ModifyChecked(s, id, p);
    if r.ok {
      var e := if id in s.index then s.index[id] else s.removed[id];
      PatchEdgeSpec(e, p);
      if id in s.index {
        ReplaceLive(s, id, PatchEdge(e, p).value);
      } else {
        ReplaceRestore(s, id, PatchEdge(e, p).value);
      }
    }
  }

  /** The two versions report the same answer, and agree completely on
      success; they part only in what a refused patch leaves behind. */
  lemma ModifyVersionsAgree(s: Store, id: int, p: Patch)
    ensures ModifyAsWritten(s, id, p).ok == ModifyChecked(s, id, p).ok
    ensures ModifyChecked(s, id, p).ok ==> ModifyAsWritten(s, id, p) == ModifyChecked(s, id, p)
  {
  }

  /** On any consistent store, a refused patch of a live edge as written
      leaves the id in the index while no adjacency entry carries it (every
      other entry stays), so the store is no longer consistent. */
  lemma DetachedState(s: Store, id: int, p: Patch)
    requires Consistent(s) && id in s.index && PatchEdge(s.index[id], p).None?
    ensures var r := ModifyAsWritten(s, id, p);
            !r.ok && r.store.index == s.index && r.store.removed == s.removed
            && NoEntries(r.store.adj, id)
            && (forall x, a :: a in AdjAt(r.store.adj, x) <==> a in AdjAt(s.adj, x) && a.id != id)
            && !Consistent(r.store)
  {
    var e := s.index[id];
    PatchEdgeSpec(e, p);
    assert !EmptyPatch(p);
    DetachFacts(s.adj, s.index, id, !e.oneway);
    var r := ModifyAsWritten(s, id, p).store;
    assert r.adj == Detach(s.adj, e.u, e.v, !e.oneway, id);
    assert e.id == id && e !in AdjAt(r.adj, e.u);
    assert !Present(r.adj, r.index[id]);
  }

  /** A refused patch on a live two-way road leaves the index holding the
      edge while no adjacency entry carries it, and a refused patch on a
      tombstoned road loses the edge from both tables. */
  lemma DetachedStateExample()
    ensures var e := Edge(7, 1, 2, 10.0, 5.0, [], false, "primary");
            var s := Store(map[1 := [e], 2 := [Reversed(e)]], map[7 := e], map[]);
            var bad := Patch(Some(-1.0), None, None, None, None, []);
            Consistent(s)
            && !ModifyAsWritten(s, 7, bad).ok
            && !Consistent(ModifyAsWritten(s, 7, bad).store)
            && 7 in ModifyAsWritten(s, 7, bad).store.index
            && NoEntries(ModifyAsWritten(s, 7, bad).store.adj, 7)
            && ModifyChecked(s, 7, bad).store == s
            && var t := Remove(s, 7).store;
               var u := ModifyAsWritten(t, 7, bad).store;
               7 !in u.index && 7 !in u.removed && !ModifyAsWritten(u, 7, Patch(Some(3.0), None, None, None, None, [])).ok
  {
    var e := Edge(7, 1, 2, 10.0, 5.0, [], false, "primary");
    var s := Store(map[1 := [e], 2 := [Reversed(e)]], map[7 := e], map[]);
    var bad := Patch(Some(-1.0), None, None, None, None, []);
    assert Sound(s.adj, s.index) by {
      forall x, k | x in s.adj && 0 <= k < |s.adj[x]|
        ensures EntryOk(s.index, x, s.adj[x][k])
      {
        assert x == 1 || x == 2;
      }
    }
    assert Present(s.adj, e);
    var r := ModifyAsWritten(s, 7, bad).store;
    assert r.adj == map[1 := [], 2 := []];
    assert !Present(r.adj, e);
  }

  /** Removing an edge and then modifying it with a valid non-empty patch
      restores it with the patched attributes. */
  lemma RemoveThenRestore(s: Store, id: int, p: Patch)
    requires Consistent(s) && id in s.index && PatchEdge(s.index[id], p).Some?
    ensures var t := Remove(s, id).store;
            var r := ModifyAsWritten(t, id, p);
            r.ok && r.store.index[id] == PatchEdge(s.index[id], p).value && Consistent(r.store)
            && Present(r.store.adj, r.store.index[id])
  {
    RemoveSpec(s, id);
    var t := Remove(s, id).store;
    ModifyVersionsAgree(t, id, p);
    ModifyCheckedSpec(t, id, p);
    var r := ModifyChecked(t, id, p).store;
    assert Complete(r.adj, r.index);
  }

  class Graph {
    var nodes: map<int, Node>
    var adj: map<int, seq<Edge>>
    var edgeById: map<int, Edge>
    var removedEdges: map<int, Edge>

    function State(): Store
      reads this
    {
      Store(adj, edgeById, removedEdges)
    }

    ghost predicate Valid()
      reads this
    {
      Consistent(State())
    }

    constructor ()
      ensures nodes == map[] && State() == Store(map[], map[], map[]) && Valid()
    {
      nodes, adj, edgeById, removedEdges := map[], map[], map[], map[];
    }

    /** `loadFromJson` on parsed records: nodes, adjacency and index are
        rebuilt; the tombstone table is not cleared. */
    method LoadFromJson(ns: map<int, Node>, es: seq<Edge>)
      modifies this
      ensures nodes == ns && adj == LoadAdj(map[], es) && edgeById == LoadIndex(es)
      ensures removedEdges == old(removedEdges)
    {
      nodes, adj, edgeById := ns, map[], map[];
      var k := 0;
      while k < |es|
        invariant 0 <= k <= |es|
        invariant adj == LoadAdj(map[], es[..k]) && edgeById == LoadIndex(es[..k])
        invariant nodes == ns && removedEdges == old(removedEdges)
      {
        var e := es[k];
        adj := Attach(adj, e);
        edgeById := edgeById[e.id := e];
        assert es[..k + 1][..k] == es[..k];
        k := k + 1;
      }
      assert es[..k] == es;
    }

    method RemoveEdge(edgeId: int) returns (ok: bool)
      modifies this
      ensures Outcome(ok, State()) == Remove(old(State()), edgeId) && nodes == old(nodes)
    {
      if edgeId !in edgeById {
        return false;
      }
      var e := edgeById[edgeId];
      if edgeId in removedEdges {
        return false;
      }
      removedEdges := removedEdges[edgeId := e];
      adj := adj[e.u := WithoutId(AdjAt(adj, e.u), edgeId)];
      if !e.oneway {
        adj := adj[e.v := WithoutId(AdjAt(adj, e.v), edgeId)];
      }
      edgeById := edgeById - {edgeId};
      return true;
    }

    /** `modifyEdge` as the source has it. */
    method ModifyEdge(edgeId: int, patch: Patch) returns (ok: bool)
      modifies this
      ensures Outcome(ok, State()) == ModifyAsWritten(old(State()), edgeId, patch) && nodes == old(nodes)
    {
      var a, rm := adj, removedEdges;
      var live := edgeId in edgeById;
      if live && EmptyPatch(patch) {
        return false;
      }
      var e: Edge;
      if live {
        e := edgeById[edgeId];
        a := a[e.u := WithoutId(AdjAt(a, e.u), edgeId)];
        if !e.oneway {
          a := a[e.v := WithoutId(AdjAt(a, e.v), edgeId)];
        }
      } else {
        if edgeId !in rm {
          return false;
        }
        e := rm[edgeId];
        rm := rm - {edgeId};
      }
      var patched := ApplyPatch(e, patch);
      if patched.None? {
        adj, removedEdges := a, rm;
        return false;
      }
      e := patched.value;
      a := a[e.u := AdjAt(a, e.u) + [e]];
      if !e.oneway {
        a := a[e.v := AdjAt(a, e.v) + [Reversed(e)]];
      }
      adj, edgeById, removedEdges := a, edgeById[edgeId := e], rm;
      return true;
    }

    /** `modifyEdge` with the patch checked before anything is erased. */
    method ModifyEdgeChecked(edgeId: int, patch: Patch) returns (ok: bool)
      modifies this
      ensures Outcome(ok, State()) == ModifyChecked(old(State()), edgeId, patch) && nodes == old(nodes)
    {
      var a, rm := adj, removedEdges;
      var live := edgeId in edgeById;
      if live && EmptyPatch(patch) {
        return false;
      }
      if !live && edgeId !in rm {
        return false;
      }
      var e := if live then edgeById[edgeId] else rm[edgeId];
      var patched := ApplyPatch(e, patch);
      if patched.None? {
        return false;
      }
      if live {
        a := a[e.u := WithoutId(AdjAt(a, e.u), edgeId)];
        if !e.oneway {
          a := a[e.v := WithoutId(AdjAt(a, e.v), edgeId)];
        }
      } else {
        rm := rm - {edgeId};
      }
      e := patched.value;
      a := a[e.u := AdjAt(a, e.u) + [e]];
      if !e.oneway {
        a := a[e.v := AdjAt(a, e.v) + [Reversed(e)]];
      }
      adj, edgeById, removedEdges := a, edgeById[edgeId := e], rm;
      return true;
    }

    /** The id of a node closest to the point, or -1 when no node lies
        within the 1e18 starting bound (distances are compared squared). */
    method NearestNodeByEuclid(lat: real, lon: real) returns (best: int)
      ensures best != -1 ==> NearestOk(nodes, lat, lon, Fin(SENTINEL * SENTINEL), Some(best))
      ensures best == -1 ==>
                NearestOk(nodes, lat, lon, Fin(SENTINEL * SENTINEL), None)
                || NearestOk(nodes, lat, lon, Fin(SENTINEL * SENTINEL), Some(-1))
    {
      var b := ScanNearest(nodes, lat, lon, Fin(SENTINEL * SENTINEL));
      best := if b.Some? then b.value else -1;
    }
  }
}
