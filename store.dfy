// The edge store shared by both C++ graph classes: per-node adjacency
// vectors, the live index `edge_by_id` and the tombstone table
// `removed_edges`, together with the consistency invariant that ties the
// adjacency entries of an id to the edge the index holds for it.
module EdgeStore {
  import opened Common

  /** The entries of a vector that carry the id, in order. */
  function WithId(s: seq<Edge>, id: int): (r: seq<Edge>)
    ensures |r| <= |s|
    ensures forall x :: x in r <==> x in s && x.id == id
  {
    if |s| == 0 then []
    else if s[0].id == id then [s[0]] + WithId(s[1..], id)
    else WithId(s[1..], id)
  }

  lemma {:induction false} WithIdAppend(s: seq<Edge>, t: seq<Edge>, id: int)
    ensures WithId(s + t, id) == WithId(s, id) + WithId(t, id)
  {
    if |s| == 0 {
      assert s + t == t;
    } else {
      assert (s + t)[1..] == s[1..] + t;
      WithIdAppend(s[1..], t, id);
    }
  }

  lemma {:induction false} WithIdNone(s: seq<Edge>, id: int)
    requires forall x :: x in s ==> x.id != id
    ensures WithId(s, id) == []
  {
    if |s| > 0 {
      assert s[0] in s;
      assert forall x :: x in s[1..] ==> x in s;
      WithIdNone(s[1..], id);
    }
  }

  /** Push the forward entry onto `adj[e.u]` and, for a two-way road, the
      swapped entry onto `adj[e.v]`; missing vectors are created empty. */
  function Attach(adj: map<int, seq<Edge>>, e: Edge): (r: map<int, seq<Edge>>)
    ensures r.Keys == adj.Keys + {e.u} + (if e.oneway then {} else {e.v})
  {
    var a := adj[e.u := AdjAt(adj, e.u) + [e]];
    if e.oneway then a else a[e.v := AdjAt(a, e.v) + [Reversed(e)]]
  }

  /** Erase the entries carrying `id` from `adj[u]` and, when `both`, from
      `adj[v]` (the erase/remove_if idiom, order kept). */
  function Detach(adj: map<int, seq<Edge>>, u: int, v: int, both: bool, id: int): (r: map<int, seq<Edge>>)
    ensures r.Keys == adj.Keys + {u} + (if both then {v} else {})
  {
    var a := adj[u := WithoutId(AdjAt(adj, u), id)];
    if both then a[v := WithoutId(AdjAt(a, v), id)] else a
  }

  /** The adjacency a load builds from the edge records, in order. */
  function LoadAdj(adj0: map<int, seq<Edge>>, es: seq<Edge>): map<int, seq<Edge>>
    decreases |es|
  {
    if |es| == 0 then adj0 else Attach(LoadAdj(adj0, es[..|es| - 1]), es[|es| - 1])
  }

  /** The index a load builds: the last record of each id wins. */
  function LoadIndex(es: seq<Edge>): map<int, Edge>
    decreases |es|
  {
    if |es| == 0 then map[] else LoadIndex(es[..|es| - 1])[es[|es| - 1].id := es[|es| - 1]]
  }

  predicate DistinctIds(es: seq<Edge>)
  {
    forall i, j :: 0 <= i < j < |es| ==> es[i].id != es[j].id
  }

  /** Every table entry is filed under its own id. */
  predicate IdsAgree(m: map<int, Edge>)
  {
    forall i :: i in m ==> m[i].id == i
  }

  /** An entry of `adj[x]` is the live edge of its id leaving `x`, or the
      swapped copy of a live two-way edge. */
  predicate EntryOk(index: map<int, Edge>, x: int, a: Edge)
  {
    a.u == x && a.id in index
    && (a == index[a.id] || (!index[a.id].oneway && a == Reversed(index[a.id])))
  }

  predicate Sound(adj: map<int, seq<Edge>>, index: map<int, Edge>)
  {
    forall x, k :: x in adj && 0 <= k < |adj[x]| ==> EntryOk(index, x, adj[x][k])
  }

  /** The entries a live edge must have. */
  predicate Present(adj: map<int, seq<Edge>>, e: Edge)
  {
    e in AdjAt(adj, e.u) && (!e.oneway ==> Reversed(e) in AdjAt(adj, e.v))
  }

  predicate Complete(adj: map<int, seq<Edge>>, index: map<int, Edge>)
  {
    forall i :: i in index ==> Present(adj, index[i])
  }

  /** The consistency invariant of a store. */
  predicate StoreOk(adj: map<int, seq<Edge>>, index: map<int, Edge>, removed: map<int, Edge>)
  {
    IdsAgree(index) && IdsAgree(removed) && index.Keys !! removed.Keys
    && Sound(adj, index) && Complete(adj, index)
  }

  /** The three member maps of a graph object. */
  datatype Store = Store(adj: map<int, seq<Edge>>, index: map<int, Edge>, removed: map<int, Edge>)

  /** What an update reports, and the maps it leaves behind. */
  datatype Outcome = Outcome(ok: bool, store: Store)

  predicate Consistent(s: Store)
  {
    StoreOk(s.adj, s.index, s.removed)
  }

  /** No adjacency entry carries the id. */
  predicate NoEntries(adj: map<int, seq<Edge>>, id: int)
  {
    forall x :: x in adj ==> WithId(adj[x], id) == []
  }

  /** At every node the entries carrying `id` are exactly those an attach
      of `e` appends. */
  ghost predicate Replaced(adj: map<int, seq<Edge>>, id: int, e: Edge)
  {
    forall x :: WithId(AdjAt(adj, x), id) == New(e, x)
  }

  /** Entries with another id are where they were. */
  ghost predicate OthersKept(adj': map<int, seq<Edge>>, adj: map<int, seq<Edge>>, id: int)
  {
    forall x, a: Edge :: a.id != id ==> (a in AdjAt(adj', x) <==> a in AdjAt(adj, x))
  }

  /** Under a sound store the entries of a live id sit only at its two ends,
      and of any other id nowhere. */
  lemma SoundPlaces(adj: map<int, seq<Edge>>, index: map<int, Edge>, x: int, a: Edge)
    requires Sound(adj, index) && x in adj && a in adj[x]
    ensures EntryOk(index, x, a)
  {
    var k :| 0 <= k < |adj[x]| && adj[x][k] == a;
  }

  lemma {:induction false} WithoutIdTwice(s: seq<Edge>, id: int)
    ensures WithoutId(WithoutId(s, id), id) == WithoutId(s, id)
  {
    if |s| > 0 {
      WithoutIdTwice(s[1..], id);
      if s[0].id != id {
        assert ([s[0]] + WithoutId(s[1..], id))[1..] == WithoutId(s[1..], id);
      }
    }
  }

  /** The entries an attach appends at `x`. */
  function New(e: Edge, x: int): seq<Edge>
  {
    (if x == e.u then [e] else []) + (if !e.oneway && x == e.v then [Reversed(e)] else [])
  }

  lemma AttachAt(adj: map<int, seq<Edge>>, e: Edge, x: int)
    ensures AdjAt(Attach(adj, e), x) == AdjAt(adj, x) + New(e, x)
  {
  }

  lemma DetachAt(adj: map<int, seq<Edge>>, u: int, v: int, both: bool, id: int, x: int)
    ensures AdjAt(Detach(adj, u, v, both, id), x)
            == if x == u || (both && x == v) then WithoutId(AdjAt(adj, x), id) else AdjAt(adj, x)
  {
    if both && x == v && x == u {
      WithoutIdTwice(AdjAt(adj, x), id);
    }
  }

  /** Detaching a live id at both of its ends leaves no entry with that id
      and every other entry where it was. */
  lemma DetachFacts(adj: map<int, seq<Edge>>, index: map<int, Edge>, id: int, both: bool)
    requires Sound(adj, index) && IdsAgree(index) && id in index
    requires !index[id].oneway ==> both
    ensures var r := Detach(adj, index[id].u, index[id].v, both, id);
            NoEntries(r, id)
            && (forall x, a :: a in AdjAt(r, x) <==> a in AdjAt(adj, x) && a.id != id)
  {
    var e := index[id];
    var r := Detach(adj, e.u, e.v, both, id);
    forall x, a
      ensures a in AdjAt(r, x) <==> a in AdjAt(adj, x) && a.id != id
    {
      DetachAt(adj, e.u, e.v, both, id, x);
      if a in AdjAt(adj, x) && a.id == id {
        SoundPlaces(adj, index, x, a);
      }
    }
    forall x | x in r
      ensures WithId(r[x], id) == []
    {
      assert forall a :: a in r[x] ==> a in AdjAt(r, x);
      WithIdNone(r[x], id);
    }
  }

  /** After detaching every entry of an id and attaching the patched edge,
      the entries with that id are exactly the new forward and swapped ones. */
  lemma ReplaceExact(adj: map<int, seq<Edge>>, e: Edge)
    requires NoEntries(adj, e.id)
    ensures forall x :: WithId(AdjAt(Attach(adj, e), x), e.id) == New(e, x)
  {
    forall x
      ensures WithId(AdjAt(Attach(adj, e), x), e.id) == New(e, x)
    {
      AttachAt(adj, e, x);
      var f := if x == e.u then [e] else [];
      var g := if !e.oneway && x == e.v then [Reversed(e)] else [];
      assert WithId(AdjAt(adj, x), e.id) == [];
      WithIdAppend(AdjAt(adj, x), f + g, e.id);
      WithIdAppend(f, g, e.id);
      assert AdjAt(adj, x) + New(e, x) == AdjAt(adj, x) + (f + g);
    }
  }

  lemma NoEntriesAt(adj: map<int, seq<Edge>>, id: int, x: int, a: Edge)
    requires NoEntries(adj, id) && a in AdjAt(adj, x)
    ensures a.id != id
  {
  }

  /** Attaching an edge whose id the index maps to it keeps a sound store
      sound and complete, provided no stale entry of the id remains. */
  lemma AttachOk(adj: map<int, seq<Edge>>, index: map<int, Edge>, e: Edge)
    requires Sound(adj, index) && Complete(adj, index)
    requires NoEntries(adj, e.id)
    ensures Sound(Attach(adj, e), index[e.id := e]) && Complete(Attach(adj, e), index[e.id := e])
  {
    AttachSound(adj, index, e);
    AttachComplete(adj, index, e);
  }

  lemma AttachSound(adj: map<int, seq<Edge>>, index: map<int, Edge>, e: Edge)
    requires Sound(adj, index) && NoEntries(adj, e.id)
    ensures Sound(Attach(adj, e), index[e.id := e])
  {
    var r := Attach(adj, e);
    var index' := index[e.id := e];
    forall x, k | x in r && 0 <= k < |r[x]|
      ensures EntryOk(index', x, r[x][k])
    {
      AttachEntry(adj, index, e, x, k);
    }
  }

  /** One entry of the attached lists: an old one, or one the attach appends. */
  lemma AttachEntry(adj: map<int, seq<Edge>>, index: map<int, Edge>, e: Edge, x: int, k: int)
    requires Sound(adj, index) && NoEntries(adj, e.id)
    requires x in Attach(adj, e) && 0 <= k < |Attach(adj, e)[x]|
    ensures EntryOk(index[e.id := e], x, Attach(adj, e)[x][k])
  {
    AttachAt(adj, e, x);
    var a := Attach(adj, e)[x][k];
    if k < |AdjAt(adj, x)| {
      assert a in AdjAt(adj, x);
      SoundPlaces(adj, index, x, a);
      NoEntriesAt(adj, e.id, x, a);
    } else {
      assert a in New(e, x);
    }
  }

  lemma AttachComplete(adj: map<int, seq<Edge>>, index: map<int, Edge>, e: Edge)
    requires Complete(adj, index)
    ensures Complete(Attach(adj, e), index[e.id := e])
  {
    var r := Attach(adj, e);
    var index' := index[e.id := e];
    forall i | i in index'
      ensures Present(r, index'[i])
    {
      var b := index'[i];
      AttachAt(adj, e, b.u);
      AttachAt(adj, e, b.v);
      if i != e.id {
        assert Present(adj, index[i]);
      } else {
        assert e in New(e, e.u);
        if !e.oneway {
          assert Reversed(e) in New(e, e.v);
        }
      }
    }
  }

  /** What survives a detach of a live id was there before, carries another
      id, and agrees with the index. */
  lemma DetachEntry(adj: map<int, seq<Edge>>, index: map<int, Edge>, id: int, both: bool, x: int, a: Edge)
    requires Sound(adj, index) && id in index && (!index[id].oneway ==> both)
    requires a in AdjAt(Detach(adj, index[id].u, index[id].v, both, id), x)
    ensures a in AdjAt(adj, x) && a.id != id && EntryOk(index, x, a)
  {
    DetachAt(adj, index[id].u, index[id].v, both, id, x);
    SoundPlaces(adj, index, x, a);
  }

  lemma DetachKeep(adj: map<int, seq<Edge>>, u: int, v: int, both: bool, id: int, x: int, a: Edge)
    requires a in AdjAt(adj, x) && a.id != id
    ensures a in AdjAt(Detach(adj, u, v, both, id), x)
  {
    DetachAt(adj, u, v, both, id, x);
  }

  /** Erasing every entry of a live id, and dropping it from the index, keeps
      the store consistent. */
  lemma DropOk(adj: map<int, seq<Edge>>, index: map<int, Edge>, id: int, both: bool)
    requires Sound(adj, index) && Complete(adj, index) && IdsAgree(index) && id in index
    requires !index[id].oneway ==> both
    ensures var r := Detach(adj, index[id].u, index[id].v, both, id);
            Sound(r, index - {id}) && Complete(r, index - {id}) && NoEntries(r, id)
  {
    DropSound(adj, index, id, both);
    DropComplete(adj, index, id, both);
    DropNone(adj, index, id, both);
  }

  lemma DropSound(adj: map<int, seq<Edge>>, index: map<int, Edge>, id: int, both: bool)
    requires Sound(adj, index) && IdsAgree(index) && id in index
    requires !index[id].oneway ==> both
    ensures Sound(Detach(adj, index[id].u, index[id].v, both, id), index - {id})
  {
    var e := index[id];
    var r := Detach(adj, e.u, e.v, both, id);
    forall x, k | x in r && 0 <= k < |r[x]|
      ensures EntryOk(index - {id}, x, r[x][k])
    {
      DetachEntry(adj, index, id, both, x, r[x][k]);
    }
  }

  lemma DropComplete(adj: map<int, seq<Edge>>, index: map<int, Edge>, id: int, both: bool)
    requires Complete(adj, index) && IdsAgree(index) && id in index
    ensures Complete(Detach(adj, index[id].u, index[id].v, both, id), index - {id})
  {
    var e := index[id];
    var r := Detach(adj, e.u, e.v, both, id);
    forall i | i in index - {id}
      ensures Present(r, (index - {id})[i])
    {
      var b := index[i];
      assert Present(adj, b);
      DetachKeep(adj, e.u, e.v, both, id, b.u, b);
      if !b.oneway {
        DetachKeep(adj, e.u, e.v, both, id, b.v, Reversed(b));
      }
    }
  }

  lemma DropNone(adj: map<int, seq<Edge>>, index: map<int, Edge>, id: int, both: bool)
    requires Sound(adj, index) && IdsAgree(index) && id in index
    requires !index[id].oneway ==> both
    ensures NoEntries(Detach(adj, index[id].u, index[id].v, both, id), id)
  {
    var e := index[id];
    var r := Detach(adj, e.u, e.v, both, id);
    forall x | x in r
      ensures WithId(r[x], id) == []
    {
      forall a: Edge | a in r[x]
        ensures a.id != id
      {
        DetachEntry(adj, index, id, both, x, a);
      }
      WithIdNone(r[x], id);
    }
  }

  /** Tombstoning a live edge: the store stays consistent and exactly the
      entries carrying its id are erased. */
  lemma TombstoneOk(s: Store, id: int, both: bool)
    requires Consistent(s) && id in s.index && (!s.index[id].oneway ==> both)
    ensures var e := s.index[id];
            var d := Detach(s.adj, e.u, e.v, both, id);
            Consistent(Store(d, s.index - {id}, s.removed[id := e]))
            && (forall x, a :: a in AdjAt(d, x) <==> a in AdjAt(s.adj, x) && a.id != id)
  {
    TombstoneConsistent(s, id, both);
    TombstoneEntries(s, id, both);
  }

  lemma TombstoneConsistent(s: Store, id: int, both: bool)
    requires Consistent(s) && id in s.index && (!s.index[id].oneway ==> both)
    ensures var e := s.index[id];
            Consistent(Store(Detach(s.adj, e.u, e.v, both, id), s.index - {id}, s.removed[id := e]))
  {
    DropOk(s.adj, s.index, id, both);
    MoveOk(s, Detach(s.adj, s.index[id].u, s.index[id].v, both, id), id);
  }

  /** Moving a live record to the removed map keeps the id maps apart. */
  lemma MoveOk(s: Store, adj': map<int, seq<Edge>>, id: int)
    requires Consistent(s) && id in s.index
    requires Sound(adj', s.index - {id}) && Complete(adj', s.index - {id})
    ensures Consistent(Store(adj', s.index - {id}, s.removed[id := s.index[id]]))
  {
  }

  lemma TombstoneEntries(s: Store, id: int, both: bool)
    requires Consistent(s) && id in s.index && (!s.index[id].oneway ==> both)
    ensures var d := Detach(s.adj, s.index[id].u, s.index[id].v, both, id);
            forall x, a :: a in AdjAt(d, x) <==> a in AdjAt(s.adj, x) && a.id != id
  {
    DropOk(s.adj, s.index, id, both);
    DetachOthers(s.adj, s.index, id, both);
  }

  /** Erasing an id's entries keeps every entry of another id. */
  lemma DetachOthers(adj: map<int, seq<Edge>>, index: map<int, Edge>, id: int, both: bool)
    requires Sound(adj, index) && IdsAgree(index) && id in index
    requires !index[id].oneway ==> both
    ensures OthersKept(Detach(adj, index[id].u, index[id].v, both, id), adj, id)
  {
    DetachFacts(adj, index, id, both);
  }

  /** The index of a load holds exactly the ids of the records. */
  lemma {:induction false} LoadIndexKeys(es: seq<Edge>)
    ensures IdsAgree(LoadIndex(es))
    ensures forall i :: i in LoadIndex(es) <==> exists k :: 0 <= k < |es| && es[k].id == i
    decreases |es|
  {
    if |es| > 0 {
      var p := es[..|es| - 1];
      LoadIndexKeys(p);
      forall i
        ensures i in LoadIndex(es) <==> exists k :: 0 <= k < |es| && es[k].id == i
      {
        if i in LoadIndex(p) {
          var k :| 0 <= k < |p| && p[k].id == i;
          assert es[k].id == i;
        }
        if exists k :: 0 <= k < |es| && es[k].id == i {
          var k :| 0 <= k < |es| && es[k].id == i;
          if k < |p| {
            assert p[k].id == i;
          }
        }
      }
    }
  }

  lemma NoEntriesFresh(adj: map<int, seq<Edge>>, index: map<int, Edge>, id: int)
    requires Sound(adj, index) && id !in index
    ensures NoEntries(adj, id)
  {
    forall x | x in adj
      ensures WithId(adj[x], id) == []
    {
      forall b: Edge | b in adj[x]
        ensures b.id != id
      {
        SoundPlaces(adj, index, x, b);
      }
      WithIdNone(adj[x], id);
    }
  }

  /** A load of records with distinct ids into an adjacency of empty vectors
      yields a consistent store. */
  lemma {:induction false} LoadOk(adj0: map<int, seq<Edge>>, es: seq<Edge>)
    requires DistinctIds(es)
    requires forall x :: x in adj0 ==> adj0[x] == []
    ensures Sound(LoadAdj(adj0, es), LoadIndex(es)) && Complete(LoadAdj(adj0, es), LoadIndex(es))
    decreases |es|
  {
    if |es| > 0 {
      var p := es[..|es| - 1];
      var e := es[|es| - 1];
      assert DistinctIds(p);
      LoadOk(adj0, p);
      LoadIndexKeys(p);
      assert e.id !in LoadIndex(p);
      NoEntriesFresh(LoadAdj(adj0, p), LoadIndex(p), e.id);
      AttachOk(LoadAdj(adj0, p), LoadIndex(p), e);
    }
  }

  /** In a consistent store, a one-way road between two different nodes has
      no swapped entry, and a two-way one has both. */
  lemma LiveEntries(adj: map<int, seq<Edge>>, index: map<int, Edge>, id: int)
    requires Sound(adj, index) && Complete(adj, index) && id in index
    ensures index[id] in AdjAt(adj, index[id].u)
    ensures Reversed(index[id]) in AdjAt(adj, index[id].v)
            <==> !index[id].oneway || index[id].u == index[id].v
  {
    var e := index[id];
    assert Present(adj, e);
    if Reversed(e) in AdjAt(adj, e.v) && e.oneway {
      SoundPlaces(adj, index, e.v, Reversed(e));
    }
    if e.u == e.v {
      assert Reversed(e) == e;
    }
  }

  /** A successful modification replaces the id's entries by the patched
      edge (forward at `u`, swapped at `v` for a two-way road) and leaves
      every other entry in place. `d` is the adjacency once the id's old
      entries are gone and `ix` the index without the id. */
  lemma ReplaceAfter(s: Store, d: map<int, seq<Edge>>, ix: map<int, Edge>, id: int, e': Edge, r: Store)
    requires Sound(d, ix) && Complete(d, ix) && NoEntries(d, id) && id !in ix && e'.id == id
    requires IdsAgree(ix) && IdsAgree(r.removed) && id !in r.removed && r.removed.Keys <= s.removed.Keys
    requires ix.Keys !! s.removed.Keys
    requires r == Store(Attach(d, e'), ix[id := e'], r.removed)
    requires OthersKept(d, s.adj, id)
    ensures Consistent(r) && r.index[id] == e' && id !in r.removed
    ensures Replaced(r.adj, id, e')
    ensures OthersKept(r.adj, s.adj, id)
  {
    AttachOk(d, ix, e');
    RestoreOk(r.adj, ix, r.removed, s.removed, e');
    ReplaceExact(d, e');
    ReplaceOthers(s, d, id, e');
  }

  /** Putting a record back into the index keeps the id maps apart. */
  lemma RestoreOk(adj: map<int, seq<Edge>>, ix: map<int, Edge>, removed: map<int, Edge>,
                  removed0: map<int, Edge>, e: Edge)
    requires Sound(adj, ix[e.id := e]) && Complete(adj, ix[e.id := e]) && IdsAgree(ix)
    requires IdsAgree(removed) && e.id !in removed && removed.Keys <= removed0.Keys
    requires ix.Keys !! removed0.Keys
    ensures StoreOk(adj, ix[e.id := e], removed)
  {
  }

  /** Attaching the patched edge keeps every entry of another id. */
  lemma ReplaceOthers(s: Store, d: map<int, seq<Edge>>, id: int, e': Edge)
    requires e'.id == id && OthersKept(d, s.adj, id)
    ensures OthersKept(Attach(d, e'), s.adj, id)
  {
    forall x, a: Edge | a.id != id
      ensures a in AdjAt(Attach(d, e'), x) <==> a in AdjAt(s.adj, x)
    {
      AttachAt(d, e', x);
    }
  }

  /** The store between erasing a live id's entries (at both ends, or at
      `u` alone for a one-way road) and attaching its patched edge. */
  lemma LiveDetached(s: Store, id: int, both: bool)
    requires Consistent(s) && id in s.index && (!s.index[id].oneway ==> both)
    ensures var e := s.index[id];
            var d := Detach(s.adj, e.u, e.v, both, id);
            Sound(d, s.index - {id}) && Complete(d, s.index - {id}) && NoEntries(d, id)
            && OthersKept(d, s.adj, id)
  {
    DropOk(s.adj, s.index, id, both);
    DetachOthers(s.adj, s.index, id, both);
  }

  /** Erasing an id that has no entries changes no vector (a missing one
      is created empty), so a consistent store stays consistent. */
  lemma DetachNone(s: Store, u: int, v: int, both: bool, id: int)
    requires Consistent(s) && id !in s.index
    ensures var d := Detach(s.adj, u, v, both, id);
            Sound(d, s.index) && Complete(d, s.index) && NoEntries(d, id)
            && (forall x :: AdjAt(d, x) == AdjAt(s.adj, x))
  {
    NoEntriesFresh(s.adj, s.index, id);
    var d := Detach(s.adj, u, v, both, id);
    forall x
      ensures AdjAt(d, x) == AdjAt(s.adj, x)
    {
      DetachAt(s.adj, u, v, both, id, x);
      if x in s.adj {
        assert forall a :: a in s.adj[x] ==> a.id != id by {
          forall a | a in s.adj[x]
            ensures a.id != id
          {
            NoEntriesAt(s.adj, id, x, a);
          }
        }
        WithoutIdSame(s.adj[x], id);
      }
    }
    forall x, k | x in d && 0 <= k < |d[x]|
      ensures EntryOk(s.index, x, d[x][k])
    {
      assert d[x] == AdjAt(d, x) == AdjAt(s.adj, x);
    }
    forall i | i in s.index
      ensures Present(d, s.index[i])
    {
      assert Present(s.adj, s.index[i]);
    }
    forall x | x in d
      ensures WithId(d[x], id) == []
    {
      assert d[x] == AdjAt(s.adj, x);
      if x !in s.adj {
        assert d[x] == [];
      }
    }
  }

  lemma {:induction false} WithoutIdSame(s: seq<Edge>, id: int)
    requires forall a :: a in s ==> a.id != id
    ensures WithoutId(s, id) == s
  {
    if |s| > 0 {
      assert s[0] in s;
      assert forall a :: a in s[1..] ==> a in s;
      WithoutIdSame(s[1..], id);
      assert s == [s[0]] + s[1..];
    }
  }

  /** Replacing a live edge: erase its entries, then attach the new edge. */
  lemma ReplaceLiveAt(s: Store, id: int, e': Edge, both: bool)
    requires Consistent(s) && e'.id == id && id in s.index && (!s.index[id].oneway ==> both)
    ensures var e := s.index[id];
            var r := Store(Attach(Detach(s.adj, e.u, e.v, both, id), e'), s.index[id := e'], s.removed);
            Consistent(r)
            && Replaced(r.adj, id, e')
            && OthersKept(r.adj, s.adj, id)
  {
    var e := s.index[id];
    var d := Detach(s.adj, e.u, e.v, both, id);
    var ix := s.index - {id};
    var r := Store(Attach(d, e'), s.index[id := e'], s.removed);
    LiveDetached(s, id, both);
    assert IdsAgree(ix) && ix.Keys !! s.removed.Keys;
    assert r.index == ix[id := e'];
    ReplaceAfter(s, d, ix, id, e', r);
  }
}
