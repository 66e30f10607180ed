// The autograder's reference `yen_k_shortest_paths`: spur searches from every
// node of the last accepted path, with the next edge of every accepted path
// sharing the root disabled for the search and enabled again after it, and
// the cheapest candidate moved from the candidate heap to the answer.
module GraderYen {
  import opened Common
  import opened Walks
  import opened GraderEdge
  import opened RealArith
  import opened GraderSolvers
  import G = GraderGraph

  /** A candidate on the heap, `(total_cost, total_path)`. */
  type Candidate = (real, seq<int>)

  /** A path from `src` that reaches `trg` at its end and only there. */
  predicate ToTarget(p: seq<int>, src: int, trg: int)
  {
    |p| >= 1 && p[0] == src && p[|p| - 1] == trg && forall k :: 0 <= k < |p| - 1 ==> p[k] != trg
  }

  // ----- crossing times do not read the disabled flag -----

  lemma {:induction false} CrossFromFlag(e: PyEdge, b: bool, k: nat, off: real, rem: real)
    requires Drivable(e) && 0.0 <= off < SLOT_SECONDS
    ensures Drivable(e.(disabled := b))
    ensures CrossFrom(e.(disabled := b), k, off, rem) == CrossFrom(e, k, off, rem)
    decreases SlotsLeft(rem, 0.0, Slowest(e.speedProfile) * SLOT_SECONDS, off == 0.0),
              ZeroRun(e.speedProfile, k, |e.speedProfile|)
  {
    var p := e.speedProfile;
    if rem > 0.0 {
      var sp := p[SlotIdx(p, k)];
      if sp <= 0.0 {
        ZeroRunDrops(p, k);
        CrossFromFlag(e, b, k + 1, 0.0, rem);
      } else if Reach(sp, off) < rem {
        SlotDrop(p, SlotIdx(p, k), off, rem, Reach(sp, off));
        CrossFromFlag(e, b, k + 1, 0.0, rem - Reach(sp, off));
      }
    }
  }

  /** `get_cross_time` reads the profile, the length and the average time,
      not the disabled flag. */
  lemma HopCostFlag(e: PyEdge, b: bool, t: real, time: bool)
    requires time ==> t >= 0.0 && G.Ready(e)
    ensures time ==> G.Ready(e.(disabled := b))
    ensures G.HopCost(e.(disabled := b), t, time) == G.HopCost(e, t, time)
  {
    if time && |e.speedProfile| > 0 && e.length > 0.0 {
      var k := (t / SLOT_SECONDS).Floor;
      CrossFromFlag(e, b, k, t - SLOT_SECONDS * (k as real), e.length);
    }
  }

  /** Two record maps that differ at most in the disabled flags. */
  predicate SameButFlags(e1: map<int, PyEdge>, e2: map<int, PyEdge>)
  {
    e1.Keys == e2.Keys && forall id :: id in e1 ==> e2[id] == e1[id].(disabled := e2[id].disabled)
  }

  // ----- the candidate total -----

  /** The first entry towards `v`, disabled or not (`eids[0]`). */
  function FirstTo(es: seq<(int, int)>, v: int): (r: Option<int>)
    ensures r.Some? <==> exists k :: 0 <= k < |es| && es[k].0 == v
    ensures r.Some? ==> exists k :: 0 <= k < |es| && es[k] == (v, r.value)
                                    && forall j :: 0 <= j < k ==> es[j].0 != v
  {
    if |es| == 0 then None
    else if es[0].0 == v then Some(es[0].1)
    else
      var r := FirstTo(es[1..], v);
      assert forall k :: 0 < k < |es| ==> es[1..][k - 1] == es[k];
      assert forall k :: 0 <= k < |es| - 1 ==> es[1..][k] == es[k + 1];
      r
  }

  /** The candidate total over the first `n` hops of a path: each hop costs
      its first entry, whatever its flag (the time mode entering it at the
      total so far), and a hop without any entry costs nothing. */
  function CandidateCost(s: G.Store, vs: seq<int>, time: bool, n: nat): (r: real)
    requires G.Resolves(s) && (n == 0 || n < |vs|)
    requires time ==> G.AllReady(s.edges)
    ensures time ==> r >= 0.0
  {
    if n == 0 then 0.0
    else
      var t := CandidateCost(s, vs, time, n - 1);
      var es := G.AdjOf(s.adj, vs[n - 1]);
      match FirstTo(es, vs[n])
      case None => t
      case Some(id) =>
        assert id in s.edges by {
          var k :| 0 <= k < |es| && es[k] == (vs[n], id);
        }
        t + G.HopCost(s.edges[id], t, time)
  }

  /** The candidate total does not depend on which edges are disabled. */
  lemma {:induction false} CandidateCostFlags(s1: G.Store, s2: G.Store, vs: seq<int>, time: bool, n: nat)
    requires G.Resolves(s1) && s2.adj == s1.adj && SameButFlags(s1.edges, s2.edges)
    requires (n == 0 || n < |vs|) && (time ==> G.AllReady(s1.edges))
    ensures G.Resolves(s2) && (time ==> G.AllReady(s2.edges))
    ensures CandidateCost(s1, vs, time, n) == CandidateCost(s2, vs, time, n)
  {
    FlagsKeep(s1, s2);
    if n > 0 {
      CandidateCostFlags(s1, s2, vs, time, n - 1);
      var t := CandidateCost(s1, vs, time, n - 1);
      var es := G.AdjOf(s1.adj, vs[n - 1]);
      match FirstTo(es, vs[n])
      case None =>
      case Some(id) =>
        var k :| 0 <= k < |es| && es[k] == (vs[n], id);
        assert id in s1.edges;
        HopCostFlag(s1.edges[id], s2.edges[id].disabled, t, time);
    }
  }

  /** Flags aside, the stores agree on what the searches may rely on. */
  lemma FlagsKeep(s1: G.Store, s2: G.Store)
    requires G.Resolves(s1) && s2.adj == s1.adj && SameButFlags(s1.edges, s2.edges)
    ensures G.Resolves(s2)
    ensures G.AllReady(s1.edges) ==> G.AllReady(s2.edges)
    ensures CostsReady(s1, false) ==> CostsReady(s2, false)
  {
    forall id | id in s2.edges
      ensures s2.edges[id].length == s1.edges[id].length
      ensures G.Ready(s1.edges[id]) ==> G.Ready(s2.edges[id])
    {
      assert s2.edges[id] == s1.edges[id].(disabled := s2.edges[id].disabled);
    }
  }

  /** The loop over `zip(total_path[:-1], total_path[1:])`. */
  method CandidateTotal(g: G.PyGraph, path: seq<int>, time: bool) returns (total: real)
    requires g.Valid() && |path| >= 1 && (time ==> G.AllReady(g.edges))
    ensures total == CandidateCost(g.State(), path, time, |path| - 1)
  {
    total := 0.0;
    var currentTime := 0.0;
    var i := 0;
    while i < |path| - 1
      invariant 0 <= i <= |path| - 1
      invariant total == CandidateCost(g.State(), path, time, i)
      invariant time ==> currentTime == total
    {
      var es := G.AdjOf(g.roadsAdj, path[i]);
      var first := FirstTo(es, path[i + 1]);
      if first.Some? {
        ghost var k :| 0 <= k < |es| && es[k] == (path[i + 1], first.value);
        var edge := g.edges[first.value];
        if time {
          var cost := GetCrossTime(edge, currentTime);
          currentTime := currentTime + cost;
          total := total + cost;
        } else {
          total := total + edge.length;
        }
      }
      i := i + 1;
    }
  }

  // ----- disabling the next edge of every path sharing the root -----

  /** The accepted path `p` shares the root `root` of length `i + 1`. */
  predicate Shares(p: seq<int>, i: nat, root: seq<int>)
  {
    |p| > i && p[..i + 1] == root
  }

  /** The loop over `A`: for each path sharing the root, the first enabled
      entry from its `i`-th to its `(i+1)`-th node is disabled and its id
      recorded. Returns the records and the ids, in order. */
  function Block(edges: map<int, PyEdge>, adj: map<int, seq<(int, int)>>, ps: seq<PathLen>, i: nat, root: seq<int>)
    : (r: (map<int, PyEdge>, seq<int>))
    requires G.Resolves(G.Store(edges, adj))
    requires forall j :: 0 <= j < |ps| && Shares(ps[j].path, i, root) ==> |ps[j].path| > i + 1
    ensures r.0.Keys == edges.Keys && G.Resolves(G.Store(r.0, adj))
    decreases |ps|
  {
    if |ps| == 0 then (edges, [])
    else
      var pre := ps[..|ps| - 1];
      assert forall j :: 0 <= j < |pre| ==> pre[j] == ps[j];
      var (e1, r1) := Block(edges, adj, pre, i, root);
      var p := ps[|ps| - 1].path;
      if Shares(p, i, root) then
        match G.FirstEnabled(e1, G.AdjOf(adj, p[i]), p[i + 1])
        case None => (e1, r1)
        case Some(id) => (e1[id := e1[id].(disabled := true)], r1 + [id])
      else (e1, r1)
  }

  /** Blocking disables each recorded id once, each of them a known edge
      that was enabled, and changes nothing else. */
  lemma {:induction false} BlockEffect(edges: map<int, PyEdge>, adj: map<int, seq<(int, int)>>, ps: seq<PathLen>,
                                       i: nat, root: seq<int>)
    requires G.Resolves(G.Store(edges, adj))
    requires forall j :: 0 <= j < |ps| && Shares(ps[j].path, i, root) ==> |ps[j].path| > i + 1
    ensures var r := Block(edges, adj, ps, i, root);
            Distinct(r.1) && (forall id :: id in r.1 ==> id in edges && !edges[id].disabled)
            && forall id :: id in edges ==> r.0[id] == if id in r.1 then edges[id].(disabled := true) else edges[id]
    decreases |ps|
  {
    if |ps| > 0 {
      var pre := ps[..|ps| - 1];
      assert forall j :: 0 <= j < |pre| ==> pre[j] == ps[j];
      BlockEffect(edges, adj, pre, i, root);
      var (e1, r1) := Block(edges, adj, pre, i, root);
      var p := ps[|ps| - 1].path;
      if Shares(p, i, root) {
        var found := G.FirstEnabled(e1, G.AdjOf(adj, p[i]), p[i + 1]);
        if found.Some? {
          var id := found.value;
          assert !e1[id].disabled;
          assert id !in r1;
          assert Block(edges, adj, ps, i, root) == (e1[id := e1[id].(disabled := true)], r1 + [id]);
        }
      }
    }
  }

  /** The last path in `ps` disables at most the first usable entry of its
      next hop, on top of what the earlier paths disabled. */
  lemma BlockStep(edges: map<int, PyEdge>, adj: map<int, seq<(int, int)>>, ps: seq<PathLen>, i: nat, root: seq<int>)
    requires G.Resolves(G.Store(edges, adj)) && |ps| > 0
    requires forall j :: 0 <= j < |ps| && Shares(ps[j].path, i, root) ==> |ps[j].path| > i + 1
    ensures var pre := ps[..|ps| - 1];
            var e1 := Block(edges, adj, pre, i, root).0;
            var e2 := Block(edges, adj, ps, i, root).0;
            var p := ps[|ps| - 1].path;
            e1.Keys == e2.Keys && (forall id :: id in e1 && e1[id].disabled ==> e2[id].disabled)
            && (Shares(p, i, root) && G.FirstEnabled(e1, G.AdjOf(adj, p[i]), p[i + 1]).Some? ==>
                  var id := G.FirstEnabled(e1, G.AdjOf(adj, p[i]), p[i + 1]).value;
                  e2 == e1[id := e1[id].(disabled := true)])
  {
    var pre := ps[..|ps| - 1];
    assert forall j :: 0 <= j < |pre| ==> pre[j] == ps[j];
  }

  /** Without parallel roads, every hop `p[i] -> p[i+1]` of a path sharing
      the root is closed during the spur search. */
  lemma {:induction false} BlockCloses(edges: map<int, PyEdge>, adj: map<int, seq<(int, int)>>, ps: seq<PathLen>,
                                       i: nat, root: seq<int>, j: int)
    requires G.Resolves(G.Store(edges, adj)) && SingleEntries(G.Store(edges, adj))
    requires forall j :: 0 <= j < |ps| && Shares(ps[j].path, i, root) ==> |ps[j].path| > i + 1
    requires 0 <= j < |ps| && Shares(ps[j].path, i, root)
    ensures G.FirstEnabled(Block(edges, adj, ps, i, root).0, G.AdjOf(adj, ps[j].path[i]), ps[j].path[i + 1]).None?
    decreases |ps|
  {
    if j < |ps| - 1 {
      var pre := ps[..|ps| - 1];
      assert forall k :: 0 <= k < |pre| ==> pre[k] == ps[k];
      BlockStep(edges, adj, ps, i, root);
      BlockCloses(edges, adj, pre, i, root, j);
      Closed(Block(edges, adj, pre, i, root).0, Block(edges, adj, ps, i, root).0,
             G.AdjOf(adj, ps[j].path[i]), ps[j].path[i + 1]);
    } else {
      LastCloses(edges, adj, ps, i, root);
    }
  }

  /** The hop of the last path in `ps` is closed once it is blocked. */
  lemma LastCloses(edges: map<int, PyEdge>, adj: map<int, seq<(int, int)>>, ps: seq<PathLen>, i: nat, root: seq<int>)
    requires G.Resolves(G.Store(edges, adj)) && SingleEntries(G.Store(edges, adj))
    requires forall j :: 0 <= j < |ps| && Shares(ps[j].path, i, root) ==> |ps[j].path| > i + 1
    requires |ps| > 0 && Shares(ps[|ps| - 1].path, i, root)
    ensures var p := ps[|ps| - 1].path;
            G.FirstEnabled(Block(edges, adj, ps, i, root).0, G.AdjOf(adj, p[i]), p[i + 1]).None?
  {
    var pre := ps[..|ps| - 1];
    assert forall k :: 0 <= k < |pre| ==> pre[k] == ps[k];
    var p := ps[|ps| - 1].path;
    var e1 := Block(edges, adj, pre, i, root).0;
    var es := G.AdjOf(adj, p[i]);
    BlockStep(edges, adj, ps, i, root);
    if G.FirstEnabled(e1, es, p[i + 1]).Some? {
      assert forall a, b :: 0 <= a < b < |es| ==> es[a].0 != es[b].0;
      DisableCloses(e1, es, p[i + 1]);
    } else {
      Closed(e1, Block(edges, adj, ps, i, root).0, es, p[i + 1]);
    }
  }

  /** Disabling the only usable entry towards `v` closes the hop. */
  lemma DisableCloses(e1: map<int, PyEdge>, es: seq<(int, int)>, v: int)
    requires forall k :: 0 <= k < |es| ==> es[k].1 in e1
    requires forall a, b :: 0 <= a < b < |es| ==> es[a].0 != es[b].0
    requires G.FirstEnabled(e1, es, v).Some?
    ensures var id := G.FirstEnabled(e1, es, v).value;
            G.FirstEnabled(e1[id := e1[id].(disabled := true)], es, v).None?
  {
    var id := G.FirstEnabled(e1, es, v).value;
    var e2 := e1[id := e1[id].(disabled := true)];
    var k :| 0 <= k < |es| && es[k].1 == id && G.Usable(e1, es[k], v);
    forall m | 0 <= m < |es|
      ensures !G.Usable(e2, es[m], v)
    {
      if m < k {
        assert es[m].0 != es[k].0;
      } else if m > k {
        assert es[k].0 != es[m].0;
      }
    }
  }

  /** Disabling more records keeps a closed hop closed. */
  lemma Closed(e1: map<int, PyEdge>, e2: map<int, PyEdge>, es: seq<(int, int)>, v: int)
    requires forall k :: 0 <= k < |es| ==> es[k].1 in e1
    requires e1.Keys == e2.Keys && forall id :: id in e1 && e1[id].disabled ==> e2[id].disabled
    requires G.FirstEnabled(e1, es, v).None?
    ensures G.FirstEnabled(e2, es, v).None?
  {
    forall k | 0 <= k < |es|
      ensures !G.Usable(e2, es[k], v)
    {
      assert !G.Usable(e1, es[k], v);
      var id := es[k].1;
      assert e1[id].disabled ==> e2[id].disabled;
    }
  }

  /** The ids set back to enabled after the spur search, in order. */
  function EnableAll(edges: map<int, PyEdge>, ids: seq<int>): (r: map<int, PyEdge>)
    ensures r.Keys == edges.Keys
    ensures forall id :: id in edges ==> r[id] == if id in ids then edges[id].(disabled := false) else edges[id]
  {
    if |ids| == 0 then edges
    else
      var r1 := EnableAll(edges, ids[..|ids| - 1]);
      var id := ids[|ids| - 1];
      assert forall x :: x in ids <==> x in ids[..|ids| - 1] || x == id;
      if id in r1 then r1[id := r1[id].(disabled := false)] else r1
  }

  /** Enabling the blocked ids restores the records exactly. */
  lemma EnableUndoesBlock(edges: map<int, PyEdge>, adj: map<int, seq<(int, int)>>, ps: seq<PathLen>, i: nat,
                          root: seq<int>)
    requires G.Resolves(G.Store(edges, adj))
    requires forall j :: 0 <= j < |ps| && Shares(ps[j].path, i, root) ==> |ps[j].path| > i + 1
    ensures var b := Block(edges, adj, ps, i, root);
            EnableAll(b.0, b.1) == edges
  {
    var b := Block(edges, adj, ps, i, root);
    var r := EnableAll(b.0, b.1);
    BlockEffect(edges, adj, ps, i, root);
    forall id | id in edges
      ensures r[id] == edges[id]
    {
      if id in b.1 {
        assert !edges[id].disabled;
        assert edges[id].(disabled := true).(disabled := false) == edges[id];
      }
    }
  }

  /** The blocked records differ from the originals only in flags. */
  lemma BlockFlags(edges: map<int, PyEdge>, adj: map<int, seq<(int, int)>>, ps: seq<PathLen>, i: nat, root: seq<int>)
    requires G.Resolves(G.Store(edges, adj))
    requires forall j :: 0 <= j < |ps| && Shares(ps[j].path, i, root) ==> |ps[j].path| > i + 1
    ensures SameButFlags(edges, Block(edges, adj, ps, i, root).0)
  {
    BlockEffect(edges, adj, ps, i, root);
  }

  // ----- the graph updates of one spur step -----

  /** Every accepted path that shares the root has a next node: the root
      stops short of the target, which a path reaches only at its end. */
  lemma RootsExtend(A: seq<PathLen>, i: nat, root: seq<int>, source: int, target: int)
    requires forall j :: 0 <= j < |A| ==> ToTarget(A[j].path, source, target)
    requires |A| > 0 && i < |A[|A| - 1].path| - 1 && root == A[|A| - 1].path[..i + 1]
    ensures forall j :: 0 <= j < |A| && Shares(A[j].path, i, root) ==> |A[j].path| > i + 1
  {
    forall j | 0 <= j < |A| && Shares(A[j].path, i, root)
      ensures |A[j].path| > i + 1
    {
      var p := A[j].path;
      assert p[i] == root[i] == A[|A| - 1].path[i] != target;
    }
  }

  /** The loop over `A` that disables the next edge of every path sharing
      the root, recording the ids it disabled. */
  method BlockRoots(g: G.PyGraph, ps: seq<PathLen>, i: nat, root: seq<int>) returns (removed: seq<int>)
    modifies g
    requires g.Valid()
    requires forall j :: 0 <= j < |ps| && Shares(ps[j].path, i, root) ==> |ps[j].path| > i + 1
    ensures (g.edges, removed) == Block(old(g.edges), old(g.roadsAdj), ps, i, root)
    ensures g.roadsAdj == old(g.roadsAdj) && g.nodes == old(g.nodes) && g.Valid()
  {
    removed := [];
    var j := 0;
    while j < |ps|
      invariant 0 <= j <= |ps|
      invariant g.roadsAdj == old(g.roadsAdj) && g.nodes == old(g.nodes)
      invariant (g.edges, removed) == Block(old(g.edges), g.roadsAdj, ps[..j], i, root)
    {
      assert ps[..j + 1][..j] == ps[..j] && ps[..j + 1][j] == ps[j];
      var p := ps[j].path;
      if Shares(p, i, root) {
        var found := g.FindEntry(p[i], p[i + 1]);
        if found.Some? {
          var id := found.value;
          g.edges := g.edges[id := g.edges[id].(disabled := true)];
          removed := removed + [id];
        }
      }
      j := j + 1;
    }
    assert ps[..j] == ps;
  }

  /** `for eid in removed_edges: graph.edges[eid].disabled = False`. */
  method Unblock(g: G.PyGraph, removed: seq<int>)
    modifies g
    requires g.Valid()
    ensures g.edges == EnableAll(old(g.edges), removed)
    ensures g.roadsAdj == old(g.roadsAdj) && g.nodes == old(g.nodes) && g.Valid()
  {
    var j := 0;
    while j < |removed|
      invariant 0 <= j <= |removed|
      invariant g.roadsAdj == old(g.roadsAdj) && g.nodes == old(g.nodes)
      invariant g.edges == EnableAll(old(g.edges), removed[..j])
    {
      assert removed[..j + 1][..j] == removed[..j];
      var id := removed[j];
      if id in g.edges {
        g.edges := g.edges[id := g.edges[id].(disabled := false)];
      }
      j := j + 1;
    }
    assert removed[..j] == removed;
  }

  // ----- the candidate heap -----

  /** The duplicate test as intended: some candidate already holds the path. */
  predicate InCandidates(B: seq<Candidate>, path: seq<int>)
  {
    exists j :: 0 <= j < |B| && B[j].1 == path
  }

  /** The duplicate test as written, `any(p["path"] == total_path for p in
      B)`: the heap holds `(cost, path)` tuples, so indexing one by the key
      `"path"` raises (`None`) as soon as the heap is not empty. */
  function DedupAsWritten(B: seq<Candidate>, path: seq<int>): (r: Option<bool>)
    ensures r.Some? ==> r.value == InCandidates(B, path)
  {
    if |B| == 0 then Some(false) else None
  }

  /** A second, different candidate found while the first is on the heap
      makes the test raise, where the intended test lets it in. */
  lemma DedupCrashes()
    ensures !InCandidates([(1.0, [0, 1])], [0, 2, 1])
    ensures DedupAsWritten([(1.0, [0, 1])], [0, 2, 1]).None?
  {
    assert [0, 1] != [0, 2, 1];
  }

  /** Python's ordering of lists of ints: lexicographic, a proper prefix
      first. */
  predicate LexLess(a: seq<int>, b: seq<int>)
  {
    if |a| == 0 then |b| > 0
    else if |b| == 0 then false
    else a[0] < b[0] || (a[0] == b[0] && LexLess(a[1..], b[1..]))
  }

  lemma {:induction false} LexTrans(a: seq<int>, b: seq<int>, c: seq<int>)
    requires LexLess(a, b) && LexLess(b, c)
    ensures LexLess(a, c)
  {
    if |a| > 0 && a[0] == b[0] == c[0] {
      LexTrans(a[1..], b[1..], c[1..]);
    }
  }

  lemma {:induction false} LexTotal(a: seq<int>, b: seq<int>)
    ensures a == b || LexLess(a, b) || LexLess(b, a)
  {
    if |a| > 0 && |b| > 0 && a[0] == b[0] {
      LexTotal(a[1..], b[1..]);
      if a[1..] == b[1..] {
        assert a == [a[0]] + a[1..] && b == [b[0]] + b[1..];
      }
    }
  }

  lemma {:induction false} LexIrrefl(a: seq<int>)
    ensures !LexLess(a, a)
  {
    if |a| > 0 {
      LexIrrefl(a[1..]);
    }
  }

  /** Python's ordering of `(cost, path)` tuples. */
  predicate TupleLess(x: Candidate, y: Candidate)
  {
    x.0 < y.0 || (x.0 == y.0 && LexLess(x.1, y.1))
  }

  lemma TupleTrans(x: Candidate, y: Candidate, z: Candidate)
    requires TupleLess(x, y) && TupleLess(y, z)
    ensures TupleLess(x, z)
  {
    if x.0 == y.0 == z.0 {
      LexTrans(x.1, y.1, z.1);
    }
  }

  lemma TupleTotal(x: Candidate, y: Candidate)
    requires x.1 != y.1
    ensures TupleLess(x, y) || TupleLess(y, x)
  {
    LexTotal(x.1, y.1);
  }

  /** No two candidates hold the same path. */
  predicate DistinctPaths(B: seq<Candidate>)
  {
    forall a, b :: 0 <= a < b < |B| ==> B[a].1 != B[b].1
  }

  /** `heapq.heappop(B)`: the least candidate in tuple order, and the heap
      without it. */
  method PopMin(B: seq<Candidate>) returns (x: Candidate, rest: seq<Candidate>)
    requires |B| > 0 && DistinctPaths(B)
    ensures exists m :: 0 <= m < |B| && x == B[m] && rest == B[..m] + B[m + 1..]
    ensures forall j :: 0 <= j < |rest| ==> TupleLess(x, rest[j])
  {
    var m := 0;
    var i := 1;
    while i < |B|
      invariant 0 <= m < i <= |B|
      invariant forall j :: 0 <= j < i && j != m ==> TupleLess(B[m], B[j])
    {
      TupleTotal(B[m], B[i]);
      if TupleLess(B[i], B[m]) {
        forall j | 0 <= j < i && j != m
          ensures TupleLess(B[i], B[j])
        {
          TupleTrans(B[i], B[m], B[j]);
        }
        m := i;
      }
      i := i + 1;
    }
    x := B[m];
    rest := B[..m] + B[m + 1..];
    forall j | 0 <= j < |rest|
      ensures TupleLess(x, rest[j])
    {
      if j < m {
        assert rest[j] == B[j];
      } else {
        assert rest[j] == B[j + 1];
      }
    }
  }

  // ----- the rounds -----

  /** Each candidate reaches the target from the source, its cost is the
      candidate total over the graph (the disabled flags do not matter), and
      no path is on the heap twice. */
  predicate CandOk(s0: G.Store, B: seq<Candidate>, source: int, target: int, time: bool)
  {
    G.Resolves(s0) && (time ==> G.AllReady(s0.edges)) && DistinctPaths(B)
    && forall j :: 0 <= j < |B| ==> Priced(s0, B[j], source, target, time)
  }

  /** A candidate from the source to the target at its candidate total. */
  predicate Priced(s0: G.Store, x: Candidate, source: int, target: int, time: bool)
    requires G.Resolves(s0) && (time ==> G.AllReady(s0.edges))
  {
    ToTarget(x.1, source, target) && Costed(s0, x, time)
  }

  /** A candidate at its candidate total. */
  predicate Costed(s0: G.Store, x: Candidate, time: bool)
    requires G.Resolves(s0) && (time ==> G.AllReady(s0.edges))
  {
    |x.1| >= 1 && x.0 == CandidateCost(s0, x.1, time, |x.1| - 1)
  }

  /** No candidate repeats an accepted path. */
  predicate Fresh(A: seq<PathLen>, B: seq<Candidate>)
  {
    forall j, a :: 0 <= j < |B| && 0 <= a < |A| ==> B[j].1 != A[a].path
  }

  /** The spur path glued to the root reaches the target only at its end. */
  lemma SpliceToTarget(last: seq<int>, i: nat, spur: seq<int>, source: int, target: int)
    requires ToTarget(last, source, target) && i < |last| - 1
    requires |spur| >= 1 && spur[0] == last[i] && spur[|spur| - 1] == target && Distinct(spur)
    ensures ToTarget(last[..i] + spur, source, target)
    ensures (last[..i] + spur)[..i + 1] == last[..i + 1]
  {
    var t := last[..i] + spur;
    forall k | 0 <= k < |t| - 1
      ensures t[k] != target
    {
      if k >= i {
        assert t[k] == spur[k - i] && spur[|spur| - 1] == target;
      }
    }
    assert t[..i + 1] == last[..i + 1];
  }

  /** The first hop of a spur path uses an entry the blocked graph leaves
      usable. */
  lemma SpurFirstHop(sb: G.Store, K: set<int>, spurNode: int, target: int, time: bool,
                     spur: seq<int>, cost: real, w: seq<Hop>)
    requires G.Resolves(sb) && Found(sb, K, spurNode, target, time, {}, {}, spur, cost, w) && |w| > 0
    ensures |spur| >= 2 && spur[0] == spurNode
    ensures G.FirstEnabled(sb.edges, G.AdjOf(sb.adj, spurNode), spur[1]).Some?
  {
    var arcs := View(sb, time, {}, {});
    WalkHopAllowed(sb, time, {}, {}, spurNode, w, 0);
    var h := w[0];
    var es := G.AdjOf(sb.adj, spurNode);
    assert es[h.idx].1 in sb.edges && G.Usable(sb.edges, es[h.idx], spur[1]);
  }

  /** Without parallel roads the spur candidate differs from every accepted
      path: one sharing the root has its next edge disabled, and one not
      sharing it differs in the root. */
  lemma SpurFresh(s0: G.Store, A: seq<PathLen>, i: nat, root: seq<int>, total: seq<int>)
    requires G.Resolves(s0) && SingleEntries(s0)
    requires forall j :: 0 <= j < |A| && Shares(A[j].path, i, root) ==> |A[j].path| > i + 1
    requires |root| == i + 1 && |total| >= i + 2 && total[..i + 1] == root
    requires G.FirstEnabled(Block(s0.edges, s0.adj, A, i, root).0, G.AdjOf(s0.adj, root[i]), total[i + 1]).Some?
    ensures NewPath(A, total)
  {
    forall a | 0 <= a < |A|
      ensures total != A[a].path
    {
      if Shares(A[a].path, i, root) {
        BlockCloses(s0.edges, s0.adj, A, i, root, a);
        assert A[a].path[i] == root[i];
      }
    }
  }

  /** `path` is none of the accepted paths. */
  predicate NewPath(A: seq<PathLen>, path: seq<int>)
  {
    forall a :: 0 <= a < |A| ==> path != A[a].path
  }

  /** Pushing a fresh, costed candidate keeps the heap invariants. */
  lemma PushKeeps(s0: G.Store, A: seq<PathLen>, B: seq<Candidate>, i: nat, root: seq<int>, c: real,
                  total: seq<int>, source: int, target: int, time: bool)
    requires CandOk(s0, B, source, target, time) && !InCandidates(B, total)
    requires Priced(s0, (c, total), source, target, time)
    requires SingleEntries(s0) ==> Fresh(A, B) && NewPath(A, total)
    ensures CandOk(s0, B + [(c, total)], source, target, time)
    ensures SingleEntries(s0) ==> Fresh(A, B + [(c, total)])
  {
    var B' := B + [(c, total)];
    forall j | 0 <= j < |B'|
      ensures Priced(s0, B'[j], source, target, time)
    {
      if j < |B| {
        assert B'[j] == B[j];
      } else {
        assert B'[j] == (c, total);
      }
    }
    forall a, b | 0 <= a < b < |B'|
      ensures B'[a].1 != B'[b].1
    {
      assert B'[a] == B[a];
      if b < |B| {
        assert B'[b] == B[b];
      } else {
        assert B'[b] == (c, total);
        assert B[a].1 != total;
      }
    }
    if SingleEntries(s0) {
      forall j, a | 0 <= j < |B'| && 0 <= a < |A|
        ensures B'[j].1 != A[a].path
      {
        if j < |B| {
          assert B'[j] == B[j];
        } else {
          assert B'[j] == (c, total);
        }
      }
    }
  }

  /** The search from the spur node over the blocked graph and, when it
      reaches the target, the candidate spliced onto the root and its
      total. The candidate leaves the spur node by an entry the blocked
      graph keeps usable. */
  method SpurCandidate(g: G.PyGraph, ghost s0: G.Store, last: seq<int>, i: nat, source: int, target: int,
                       time: bool) returns (f: SpurRes)
    requires g.Valid() && G.Resolves(s0) && SameButFlags(s0.edges, g.edges) && g.roadsAdj == s0.adj
    requires CostsReady(s0, time) && Known(s0, g.nodes) && target in g.nodes
    requires ToTarget(last, source, target) && i < |last| - 1
    ensures f.Spur? ==> Priced(s0, (f.cost, f.path), source, target, time)
    ensures f.Spur? ==> |f.path| >= i + 2 && f.path[..i + 1] == last[..i + 1]
    ensures f.Spur? ==> G.FirstEnabled(g.edges, G.AdjOf(g.roadsAdj, last[i]), f.path[i + 1]).Some?
    ensures G.Resolves(g.State())
            && SpurOutcome(g.State(), g.nodes.Keys, last[i], target, time, last[..i], f.Spur?, PathOf(f))
  {
    FlagsKeep(s0, g.State());
    var found, total := SpurSearch(g.State(), g.nodes, last, i, source, target, time);
    f := PriceSpur(g, s0, found, total, source, target, time);
  }

  /** The spur result of a search outcome: the splice with its candidate
      total when the search succeeded. */
  method PriceSpur(g: G.PyGraph, ghost s0: G.Store, found: bool, total: seq<int>, source: int, target: int,
                   time: bool) returns (f: SpurRes)
    requires g.Valid() && G.Resolves(s0) && SameButFlags(s0.edges, g.edges) && g.roadsAdj == s0.adj
    requires CostsReady(s0, time) && (found ==> ToTarget(total, source, target)) && (!found ==> total == [])
    ensures f.Spur? == found && PathOf(f) == total
    ensures f.Spur? ==> f.path == total && Priced(s0, (f.cost, f.path), source, target, time)
  {
    f := NoSpur;
    if found {
      var c := CandidateOn(g, s0, total, time);
      f := Spur(c, total);
    }
  }

  /** What the spur step at one index gives: nothing, or a candidate with
      its total. */
  datatype SpurRes = NoSpur | Spur(cost: real, path: seq<int>)

  /** The path of a spur result, empty when there is none. */
  function PathOf(f: SpurRes): (p: seq<int>)
    ensures f.Spur? ==> p == f.path
    ensures f.NoSpur? ==> p == []
  {
    if f.Spur? then f.path else []
  }

  /** The candidate's total on the blocked graph is its total on `s0`. */
  method CandidateOn(g: G.PyGraph, ghost s0: G.Store, path: seq<int>, time: bool) returns (c: real)
    requires g.Valid() && G.Resolves(s0) && SameButFlags(s0.edges, g.edges) && g.roadsAdj == s0.adj
    requires CostsReady(s0, time) && |path| >= 1
    ensures c == CandidateCost(s0, path, time, |path| - 1)
  {
    FlagsKeep(s0, g.State());
    c := CandidateTotal(g, path, time);
    CandidateCostFlags(s0, g.State(), path, time, |path| - 1);
  }

  /** `dijkstra_shortest_path` from the spur node `last[i]` and the splice
      `root_path[:-1] + spur_path`, when the search reaches the target. */
  method SpurSearch(st: G.Store, nodes: map<int, Node>, last: seq<int>, i: nat, source: int, target: int,
                    time: bool) returns (found: bool, total: seq<int>)
    requires G.Resolves(st) && CostsReady(st, time) && Known(st, nodes) && target in nodes
    requires ToTarget(last, source, target) && i < |last| - 1
    ensures found ==> ToTarget(total, source, target)
    ensures found ==> |total| >= i + 2 && total[..i + 1] == last[..i + 1]
    ensures found ==> G.FirstEnabled(st.edges, G.AdjOf(st.adj, last[i]), total[i + 1]).Some?
    ensures !found ==> total == []
    ensures SpurOutcome(st, nodes.Keys, last[i], target, time, last[..i], found, total)
  {
    var spur, spurCost, w := DijkstraShortestPath(st, nodes, last[i], target, time, {}, {});
    found := spur != [];
    total := [];
    if found {
      total := last[..i] + spur;
      SpurSplice(st, nodes.Keys + {last[i]}, last, i, source, target, time, spur, spurCost.val, w);
      assert Route(View(st, time, {}, {}), nodes.Keys + {last[i]}, last[i], target, w);
    }
  }

  /** What the search from spur node `a` over the blocked records `st`
      gives: no candidate exactly when `a` has no route to the target there,
      and otherwise the root followed by a repetition-free path the search
      found. */
  ghost predicate SpurOutcome(st: G.Store, K: set<int>, a: int, target: int, time: bool, root: seq<int>,
                              found: bool, total: seq<int>)
    requires G.Resolves(st)
  {
    (!found <==> NoRoute(View(st, time, {}, {}), K + {a}, a, target))
    && (found ==> exists spur, c, w :: Found(st, K + {a}, a, target, time, {}, {}, spur, c, w)
                                      && Distinct(spur) && total == root + spur)
  }

  /** The records during the spur search at index `i` of the last accepted
      path: the next edge of every accepted path sharing the root disabled. */
  function Blocked(s0: G.Store, A: seq<PathLen>, i: nat): (sb: G.Store)
    requires G.Resolves(s0) && |A| > 0 && i < |A[|A| - 1].path|
    requires forall j :: 0 <= j < |A| && Shares(A[j].path, i, A[|A| - 1].path[..i + 1]) ==> |A[j].path| > i + 1
    ensures G.Resolves(sb) && sb.adj == s0.adj
  {
    G.Store(Block(s0.edges, s0.adj, A, i, A[|A| - 1].path[..i + 1]).0, s0.adj)
  }

  /** The spur result at index `i` of the last accepted path: nothing
      exactly when the spur node has no route to the target in the blocked
      graph, and otherwise the spliced path found there, priced by the
      candidate total over the unblocked graph. */
  ghost predicate SpurResultPy(s0: G.Store, K: set<int>, A: seq<PathLen>, i: nat, target: int, time: bool,
                               f: SpurRes)
  {
    G.Resolves(s0) && (time ==> G.AllReady(s0.edges)) && |A| > 0 && i < |A[|A| - 1].path| - 1
    && (forall j :: 0 <= j < |A| && Shares(A[j].path, i, A[|A| - 1].path[..i + 1]) ==> |A[j].path| > i + 1)
    && SpurOutcome(Blocked(s0, A, i), K, A[|A| - 1].path[i], target, time, A[|A| - 1].path[..i], f.Spur?, PathOf(f))
    && (f.Spur? ==> Costed(s0, (f.cost, f.path), time))
  }

  /** Every spur index of a round has its spur result, index by index. */
  ghost predicate SpursPy(s0: G.Store, K: set<int>, A: seq<PathLen>, target: int, time: bool,
                          found: seq<SpurRes>)
    decreases |found|
  {
    |found| == 0
    || (SpursPy(s0, K, A, target, time, found[..|found| - 1])
        && SpurResultPy(s0, K, A, |found| - 1, target, time, found[|found| - 1]))
  }

  /** Spur index `i` of a recorded round has its spur result. */
  lemma {:induction false} SpursPyAt(s0: G.Store, K: set<int>, A: seq<PathLen>, target: int, time: bool,
                                     found: seq<SpurRes>, i: int)
    requires SpursPy(s0, K, A, target, time, found) && 0 <= i < |found|
    ensures SpurResultPy(s0, K, A, i, target, time, found[i])
    decreases |found|
  {
    if i < |found| - 1 {
      var init := found[..|found| - 1];
      SpursPyAt(s0, K, A, target, time, init, i);
      assert init[i] == found[i];
    }
  }

  lemma SpursPySnoc(s0: G.Store, K: set<int>, A: seq<PathLen>, target: int, time: bool, found: seq<SpurRes>,
                    f: SpurRes)
    requires SpursPy(s0, K, A, target, time, found) && SpurResultPy(s0, K, A, |found|, target, time, f)
    ensures SpursPy(s0, K, A, target, time, found + [f])
  {
    var fs := found + [f];
    assert fs[..|fs| - 1] == found && fs[|fs| - 1] == f && |fs| - 1 == |found|;
  }

  lemma PushesSnoc(B: seq<Candidate>, found: seq<SpurRes>, f: SpurRes, B0: seq<Candidate>, B': seq<Candidate>)
    requires B0 == Pushes(B, found)
    requires B' == if f.Spur? && !InCandidates(B0, f.path) then B0 + [(f.cost, f.path)] else B0
    ensures B' == Pushes(B, found + [f])
  {
    assert (found + [f])[..|found|] == found;
  }

  /** The heap after the spur steps of a round with results `found`, in
      order: each found candidate whose path the heap does not hold yet is
      pushed. */
  function Pushes(B: seq<Candidate>, found: seq<SpurRes>): seq<Candidate>
    decreases |found|
  {
    if |found| == 0 then B
    else
      var B1 := Pushes(B, found[..|found| - 1]);
      var f := found[|found| - 1];
      if f.Spur? && !InCandidates(B1, f.path) then B1 + [(f.cost, f.path)] else B1
  }

  /** The spur steps only push: the old heap stays in front, every found
      path ends up on the heap, and every new entry is a found candidate. */
  lemma {:induction false} PushesHold(B: seq<Candidate>, found: seq<SpurRes>)
    ensures |B| <= |Pushes(B, found)| && Pushes(B, found)[..|B|] == B
    ensures forall j :: 0 <= j < |found| && found[j].Spur? ==> InCandidates(Pushes(B, found), found[j].path)
    ensures forall c :: c in Pushes(B, found) ==> c in B || Spur(c.0, c.1) in found
    decreases |found|
  {
    if |found| > 0 {
      var init := found[..|found| - 1];
      var f := found[|found| - 1];
      PushesHold(B, init);
      var B1 := Pushes(B, init);
      assert found == init + [f];
      forall j | 0 <= j < |found| && found[j].Spur?
        ensures InCandidates(Pushes(B, found), found[j].path)
      {
        if j < |found| - 1 {
          assert init[j] == found[j];
          var m :| 0 <= m < |B1| && B1[m].1 == found[j].path;
          assert Pushes(B, found)[m] == B1[m];
        } else if !InCandidates(B1, f.path) {
          assert Pushes(B, found)[|B1|] == (f.cost, f.path);
        }
      }
      if f.Spur? && !InCandidates(B1, f.path) {
        assert (B1 + [(f.cost, f.path)])[..|B|] == B1[..|B|];
      }
    }
  }

  /** A heap that prices every path by its candidate total holds every
      found candidate itself, cost included. */
  lemma FoundInPool(s0: G.Store, K: set<int>, A: seq<PathLen>, target: int, time: bool, B: seq<Candidate>,
                    found: seq<SpurRes>, source: int)
    requires SpursPy(s0, K, A, target, time, found) && CandOk(s0, Pushes(B, found), source, target, time)
    ensures forall j :: 0 <= j < |found| && found[j].Spur? ==> (found[j].cost, found[j].path) in Pushes(B, found)
  {
    PushesHold(B, found);
    var P := Pushes(B, found);
    forall j | 0 <= j < |found| && found[j].Spur?
      ensures (found[j].cost, found[j].path) in P
    {
      SpursPyAt(s0, K, A, target, time, found, j);
      var m :| 0 <= m < |P| && P[m].1 == found[j].path;
      CostedSame(s0, P[m], (found[j].cost, found[j].path), time);
    }
  }

  /** A candidate total depends only on the path. */
  lemma CostedSame(s0: G.Store, x: Candidate, y: Candidate, time: bool)
    requires G.Resolves(s0) && (time ==> G.AllReady(s0.edges))
    requires Costed(s0, x, time) && Costed(s0, y, time) && x.1 == y.1
    ensures x == y
  {
  }

  /** What a spur path found in the blocked graph gives the candidate. */
  lemma SpurSplice(sb: G.Store, K: set<int>, last: seq<int>, i: nat, source: int, target: int, time: bool,
                   spur: seq<int>, cost: real, w: seq<Hop>)
    requires G.Resolves(sb) && ToTarget(last, source, target) && i < |last| - 1
    requires Found(sb, K, last[i], target, time, {}, {}, spur, cost, w) && Distinct(spur)
    ensures ToTarget(last[..i] + spur, source, target)
    ensures |last[..i] + spur| >= i + 2 && (last[..i] + spur)[..i + 1] == last[..i + 1]
    ensures G.FirstEnabled(sb.edges, G.AdjOf(sb.adj, last[i]), (last[..i] + spur)[i + 1]).Some?
  {
    assert |w| > 0 by {
      assert last[i] != target;
      assert End(View(sb, time, {}, {}), last[i], []) == last[i];
    }
    SpurFirstHop(sb, K, last[i], target, time, spur, cost, w);
    SpliceToTarget(last, i, spur, source, target);
    assert (last[..i] + spur)[i + 1] == spur[1];
  }

  /** One spur step of a round: block the root edges, search from the spur
      node, push the spliced candidate unless the heap holds its path, and
      enable the blocked edges again. */
  method SpurOnce(g: G.PyGraph, ghost s0: G.Store, A: seq<PathLen>, B: seq<Candidate>, i: nat,
                  source: int, target: int, time: bool) returns (B': seq<Candidate>, f: SpurRes)
    modifies g
    requires g.Valid() && g.State() == s0 && CostsReady(s0, time) && Known(s0, g.nodes) && target in g.nodes
    requires |A| > 0 && forall j :: 0 <= j < |A| ==> ToTarget(A[j].path, source, target)
    requires i < |A[|A| - 1].path| - 1
    requires CandOk(s0, B, source, target, time)
    requires SingleEntries(s0) ==> Fresh(A, B)
    ensures g.Valid() && g.State() == s0 && g.nodes == old(g.nodes)
    ensures CandOk(s0, B', source, target, time) && (SingleEntries(s0) ==> Fresh(A, B'))
    ensures SpurResultPy(s0, g.nodes.Keys, A, i, target, time, f)
    ensures B' == if f.Spur? && !InCandidates(B, f.path) then B + [(f.cost, f.path)] else B
  {
    var last := A[|A| - 1].path;
    var root := last[..i + 1];
    RootsExtend(A, i, root, source, target);
    var removed := BlockRoots(g, A, i, root);
    BlockFlags(s0.edges, s0.adj, A, i, root);
    ghost var sb := g.State();
    assert sb == Blocked(s0, A, i);
    f := SpurCandidate(g, s0, last, i, source, target, time);
    B' := B;
    if f.Spur? && !InCandidates(B, f.path) {
      if SingleEntries(s0) {
        SpurFresh(s0, A, i, root, f.path);
      }
      PushKeeps(s0, A, B, i, root, f.cost, f.path, source, target, time);
      B' := B + [(f.cost, f.path)];
    }
    Unblock(g, removed);
    EnableUndoesBlock(s0.edges, s0.adj, A, i, root);
  }

  /** The spur steps of one round, one per node of the last accepted path
      but its end. */
  method SpurRound(g: G.PyGraph, ghost s0: G.Store, A: seq<PathLen>, B: seq<Candidate>, source: int, target: int,
                   time: bool) returns (B': seq<Candidate>, ghost found: seq<SpurRes>)
    modifies g
    requires g.Valid() && g.State() == s0 && CostsReady(s0, time) && Known(s0, g.nodes) && target in g.nodes
    requires |A| > 0 && forall j :: 0 <= j < |A| ==> ToTarget(A[j].path, source, target)
    requires CandOk(s0, B, source, target, time)
    requires SingleEntries(s0) ==> Fresh(A, B)
    ensures g.Valid() && g.State() == s0 && g.nodes == old(g.nodes)
    ensures CandOk(s0, B', source, target, time) && (SingleEntries(s0) ==> Fresh(A, B'))
    ensures |found| == |A[|A| - 1].path| - 1 && SpursPy(s0, g.nodes.Keys, A, target, time, found)
    ensures B' == Pushes(B, found)
    ensures forall j :: 0 <= j < |found| && found[j].Spur? ==> (found[j].cost, found[j].path) in B'
  {
    B' := B;
    found := [];
    var last := A[|A| - 1].path;
    var i := 0;
    while i < |last| - 1
      invariant 0 <= i <= |last| - 1 && |found| == i
      invariant g.Valid() && g.State() == s0 && g.nodes == old(g.nodes)
      invariant CandOk(s0, B', source, target, time) && (SingleEntries(s0) ==> Fresh(A, B'))
      invariant SpursPy(s0, g.nodes.Keys, A, target, time, found) && B' == Pushes(B, found)
    {
      ghost var B0 := B';
      ghost var f;
      B', f := SpurOnce(g, s0, A, B', i, source, target, time);
      SpursPySnoc(s0, g.nodes.Keys, A, target, time, found, f);
      PushesSnoc(B, found, f, B0, B');
      found := found + [f];
      i := i + 1;
    }
    FoundInPool(s0, g.nodes.Keys, A, target, time, B, found, source);
  }

  /** No path is accepted twice. */
  predicate DistinctAccepted(A: seq<PathLen>)
  {
    forall a, b :: 0 <= a < b < |A| ==> A[a].path != A[b].path
  }

  /** A repetition-free path the search found reaches the target only at
      its end. */
  lemma FoundToTarget(s: G.Store, K: set<int>, source: int, target: int, time: bool, path: seq<int>, cost: real,
                      w: seq<Hop>)
    requires G.Resolves(s) && Found(s, K, source, target, time, {}, {}, path, cost, w) && Distinct(path)
    ensures ToTarget(path, source, target)
  {
  }

  /** Moving a candidate from the heap to the answer keeps the invariants
      of the loop. */
  lemma PopKeeps(s0: G.Store, A: seq<PathLen>, B: seq<Candidate>, m: int, source: int, target: int, time: bool)
    requires AcceptedOk(s0, A, source, target, time) && CandOk(s0, B, source, target, time) && 0 <= m < |B|
    ensures AcceptedOk(s0, A + [PathLen(B[m].1, B[m].0)], source, target, time)
    ensures CandOk(s0, B[..m] + B[m + 1..], source, target, time)
    ensures Fresh(A, B) && DistinctAccepted(A) ==>
              Fresh(A + [PathLen(B[m].1, B[m].0)], B[..m] + B[m + 1..])
              && DistinctAccepted(A + [PathLen(B[m].1, B[m].0)])
  {
    var rest := B[..m] + B[m + 1..];
    var A' := A + [PathLen(B[m].1, B[m].0)];
    RestAt(B, m);
    forall a | 0 <= a < |A'|
      ensures ToTarget(A'[a].path, source, target)
      ensures a >= 1 ==> A'[a].length == CandidateCost(s0, A'[a].path, time, |A'[a].path| - 1)
    {
      if a == |A| {
        assert A'[a] == PathLen(B[m].1, B[m].0);
      } else {
        assert A'[a] == A[a];
      }
    }
    RestCand(s0, B, m, source, target, time);
    if Fresh(A, B) && DistinctAccepted(A) {
      RestFresh(A, B, m);
    }
  }

  /** The heap without its `m`-th entry, entry by entry. */
  lemma RestAt<T>(B: seq<T>, m: int)
    requires 0 <= m < |B|
    ensures |B[..m] + B[m + 1..]| == |B| - 1
    ensures forall j :: 0 <= j < |B| - 1 ==> (B[..m] + B[m + 1..])[j] == if j < m then B[j] else B[j + 1]
  {
  }

  lemma RestCand(s0: G.Store, B: seq<Candidate>, m: int, source: int, target: int, time: bool)
    requires CandOk(s0, B, source, target, time) && 0 <= m < |B|
    ensures CandOk(s0, B[..m] + B[m + 1..], source, target, time)
  {
    RestAt(B, m);
  }

  lemma RestFresh(A: seq<PathLen>, B: seq<Candidate>, m: int)
    requires 0 <= m < |B| && DistinctPaths(B) && Fresh(A, B) && DistinctAccepted(A)
    ensures Fresh(A + [PathLen(B[m].1, B[m].0)], B[..m] + B[m + 1..])
    ensures DistinctAccepted(A + [PathLen(B[m].1, B[m].0)])
  {
    RestAt(B, m);
    var A' := A + [PathLen(B[m].1, B[m].0)];
    assert forall a :: 0 <= a < |A| ==> A'[a] == A[a];
  }

  /** Every accepted path goes from the source to the target, and each but
      the first is priced by the candidate total. */
  predicate AcceptedOk(s0: G.Store, A: seq<PathLen>, source: int, target: int, time: bool)
  {
    G.Resolves(s0) && (time ==> G.AllReady(s0.edges))
    && forall j :: 0 <= j < |A| ==>
         ToTarget(A[j].path, source, target)
         && (j >= 1 ==> A[j].length == CandidateCost(s0, A[j].path, time, |A[j].path| - 1))
  }

  /** The path accepted from the heap `pool`: one of its candidates, tuple-least
      among them. */
  predicate PoppedFrom(pool: seq<Candidate>, a: PathLen)
  {
    (a.length, a.path) in pool && forall c :: c in pool ==> c == (a.length, a.path) || TupleLess((a.length, a.path), c)
  }

  /** The heap after `heappop`: the popped candidate is the least of the old
      heap, and together with the rest it makes up the old heap. */
  lemma PoppedShape(B: seq<Candidate>, m: int, rest: seq<Candidate>)
    requires 0 <= m < |B| && rest == B[..m] + B[m + 1..]
    requires forall j :: 0 <= j < |rest| ==> TupleLess(B[m], rest[j])
    ensures PoppedFrom(B, PathLen(B[m].1, B[m].0))
    ensures multiset(rest) + multiset{B[m]} == multiset(B)
  {
    assert B == B[..m] + [B[m]] + B[m + 1..];
    forall c | c in B
      ensures c == B[m] || TupleLess(B[m], c)
    {
      if c != B[m] {
        assert c in rest;
      }
    }
  }

  /** One pass of the outer loop: the spur steps of a round, then the least
      candidate, if any, moved to the answer (`done` when the heap is empty).
      `pool` is the heap after the spur steps: the old heap followed by the new
      candidates. */
  method NextPath(g: G.PyGraph, ghost s0: G.Store, A: seq<PathLen>, B: seq<Candidate>, source: int, target: int,
                  time: bool)
    returns (done: bool, A': seq<PathLen>, B': seq<Candidate>, ghost found: seq<SpurRes>,
             ghost pool: seq<Candidate>)
    modifies g
    requires g.Valid() && g.State() == s0 && CostsReady(s0, time) && Known(s0, g.nodes) && target in g.nodes
    requires |A| > 0 && AcceptedOk(s0, A, source, target, time) && CandOk(s0, B, source, target, time)
    requires SingleEntries(s0) ==> Fresh(A, B) && DistinctAccepted(A)
    ensures g.Valid() && g.State() == s0 && g.nodes == old(g.nodes)
    ensures done ==> A' == A
    ensures !done ==> |A'| == |A| + 1 && A'[..|A|] == A
    ensures AcceptedOk(s0, A', source, target, time) && CandOk(s0, B', source, target, time)
    ensures SingleEntries(s0) ==> Fresh(A', B') && DistinctAccepted(A')
    ensures CandOk(s0, pool, source, target, time) && |B| <= |pool| && pool[..|B|] == B
    ensures |found| == |A[|A| - 1].path| - 1 && SpursPy(s0, g.nodes.Keys, A, target, time, found)
    ensures pool == Pushes(B, found) && forall j :: 0 <= j < |found| && found[j].Spur? ==> (found[j].cost, found[j].path) in pool
    ensures done <==> pool == []
    ensures !done ==> PoppedFrom(pool, A'[|A|]) && multiset(B') + multiset{(A'[|A|].length, A'[|A|].path)} == multiset(pool)
  {
    var cands;
    cands, found := SpurRound(g, s0, A, B, source, target, time);
    PushesHold(B, found);
    pool := cands;
    if cands == [] {
      return true, A, cands, found, pool;
    }
    var x, rest := PopMin(cands);
    ghost var m :| 0 <= m < |cands| && x == cands[m] && rest == cands[..m] + cands[m + 1..];
    PoppedShape(cands, m, rest);
    PopKeeps(s0, A, cands, m, source, target, time);
    A' := A + [PathLen(x.1, x.0)];
    assert A'[..|A|] == A;
    B' := rest;
    done := false;
  }

  /** One pass of the outer loop as it ran: the answers accepted before it,
      the heap it started from, what each spur index gave, and the heap
      after its spur steps. */
  datatype PyRound = PyRound(accepted: seq<PathLen>, start: seq<Candidate>, found: seq<SpurRes>,
                             pool: seq<Candidate>)

  /** A pass: one spur result per index of the last accepted path but its
      end, and the heap after the spur steps is the starting heap with the
      found candidates pushed, each path to the target priced by its
      candidate total. */
  ghost predicate PyRoundOk(s0: G.Store, K: set<int>, source: int, target: int, time: bool, r: PyRound)
  {
    |r.accepted| > 0 && |r.found| == |r.accepted[|r.accepted| - 1].path| - 1
    && SpursPy(s0, K, r.accepted, target, time, r.found)
    && r.pool == Pushes(r.start, r.found) && CandOk(s0, r.pool, source, target, time)
  }

  /** Every recorded pass is a pass, pass by pass. */
  ghost predicate RoundsPy(s0: G.Store, K: set<int>, source: int, target: int, time: bool, rounds: seq<PyRound>)
    decreases |rounds|
  {
    |rounds| == 0
    || (RoundsPy(s0, K, source, target, time, rounds[..|rounds| - 1])
        && PyRoundOk(s0, K, source, target, time, rounds[|rounds| - 1]))
  }

  /** Pass `r` of the record is a pass. */
  lemma {:induction false} RoundsPyAt(s0: G.Store, K: set<int>, source: int, target: int, time: bool,
                                      rounds: seq<PyRound>, r: int)
    requires RoundsPy(s0, K, source, target, time, rounds) && 0 <= r < |rounds|
    ensures PyRoundOk(s0, K, source, target, time, rounds[r])
    decreases |rounds|
  {
    if r < |rounds| - 1 {
      var init := rounds[..|rounds| - 1];
      RoundsPyAt(s0, K, source, target, time, init, r);
      assert init[r] == rounds[r];
    }
  }

  lemma RoundsPySnoc(s0: G.Store, K: set<int>, source: int, target: int, time: bool, rounds: seq<PyRound>,
                     r: PyRound)
    requires RoundsPy(s0, K, source, target, time, rounds) && PyRoundOk(s0, K, source, target, time, r)
    ensures RoundsPy(s0, K, source, target, time, rounds + [r])
  {
    assert (rounds + [r])[..|rounds|] == rounds;
  }

  /** How the recorded passes hang together with the answers: pass `r` ran
      with the first `r + 1` answers, the first from an empty heap, every
      later one from the previous pass's heap without the answer popped from
      it, and answer `r + 1` is the least entry of pass `r`'s heap. */
  predicate PyChain(A: seq<PathLen>, rounds: seq<PyRound>)
  {
    |rounds| <= |A|
    && (forall r :: 0 <= r < |rounds| ==> rounds[r].accepted == A[..r + 1])
    && (|rounds| > 0 ==> rounds[0].start == [])
    && (forall r :: 0 <= r < |rounds| - 1 ==>
          multiset(rounds[r + 1].start) + multiset{(A[r + 1].length, A[r + 1].path)} == multiset(rounds[r].pool))
    && (forall r :: 0 <= r < |rounds| && r + 1 < |A| ==> PoppedFrom(rounds[r].pool, A[r + 1]))
  }

  /** The heap the next pass starts from is what the recorded passes left. */
  predicate PyThreaded(A: seq<PathLen>, rounds: seq<PyRound>, B: seq<Candidate>)
  {
    |A| >= 1 && |rounds| == |A| - 1
    && (|rounds| == 0 ==> B == [])
    && (|rounds| > 0 ==>
          multiset(B) + multiset{(A[|A| - 1].length, A[|A| - 1].path)} == multiset(rounds[|rounds| - 1].pool))
  }

  /** A pass that pops the least entry of its heap extends the record. */
  lemma PyChainStep(A: seq<PathLen>, rounds: seq<PyRound>, B: seq<Candidate>, r: PyRound, A': seq<PathLen>,
                    B': seq<Candidate>)
    requires PyChain(A, rounds) && PyThreaded(A, rounds, B) && r.accepted == A && r.start == B
    requires |A'| == |A| + 1 && A'[..|A|] == A && PoppedFrom(r.pool, A'[|A|])
    requires multiset(B') + multiset{(A'[|A|].length, A'[|A|].path)} == multiset(r.pool)
    ensures PyChain(A', rounds + [r]) && PyThreaded(A', rounds + [r], B')
  {
    var rs := rounds + [r];
    forall j | 0 <= j < |rs|
      ensures rs[j].accepted == A'[..j + 1]
    {
      if j < |rounds| {
        assert A'[..j + 1] == A[..j + 1];
      }
    }
    PyChainLinks(A, rounds, B, r, A');
  }

  /** The links of the extended record: each pass starts from the previous
      heap without its popped answer, which was that heap's least entry. */
  lemma PyChainLinks(A: seq<PathLen>, rounds: seq<PyRound>, B: seq<Candidate>, r: PyRound, A': seq<PathLen>)
    requires PyChain(A, rounds) && PyThreaded(A, rounds, B) && r.start == B
    requires |A'| == |A| + 1 && A'[..|A|] == A && PoppedFrom(r.pool, A'[|A|])
    ensures forall j :: 0 <= j < |rounds| ==>
              multiset((rounds + [r])[j + 1].start) + multiset{(A'[j + 1].length, A'[j + 1].path)}
              == multiset((rounds + [r])[j].pool)
    ensures forall j :: 0 <= j < |rounds| + 1 && j + 1 < |A'| ==> PoppedFrom((rounds + [r])[j].pool, A'[j + 1])
  {
    var rs := rounds + [r];
    forall j | 0 <= j < |rounds|
      ensures multiset(rs[j + 1].start) + multiset{(A'[j + 1].length, A'[j + 1].path)} == multiset(rs[j].pool)
    {
      assert A'[j + 1] == A[j + 1] && rs[j] == rounds[j];
    }
    forall j | 0 <= j < |rs| && j + 1 < |A'|
      ensures PoppedFrom(rs[j].pool, A'[j + 1])
    {
      if j < |rounds| {
        assert A'[j + 1] == A[j + 1] && rs[j] == rounds[j];
      }
    }
  }

  /** A pass whose heap is empty closes the record. */
  lemma PyChainStop(A: seq<PathLen>, rounds: seq<PyRound>, B: seq<Candidate>, r: PyRound)
    requires PyChain(A, rounds) && PyThreaded(A, rounds, B) && r.accepted == A && r.start == B
    ensures PyChain(A, rounds + [r])
  {
    var rs := rounds + [r];
    assert A[..|A|] == A;
    forall j | 0 <= j < |rs| - 1
      ensures multiset(rs[j + 1].start) + multiset{(A[j + 1].length, A[j + 1].path)} == multiset(rs[j].pool)
    {
      assert rs[j] == rounds[j];
    }
  }

  /** `yen_k_shortest_paths` with the intended duplicate test: nothing when
      the target is unreachable, and otherwise the shortest path first and
      then at most `K - 1` cheapest candidates, each from the source to the
      target, priced by the candidate total; without parallel roads no path
      is accepted twice. The graph is left as it was found. `rounds[r]`
      records pass `r` of the outer loop: what each spur search gave, the
      heap it started from and the heap after its spur steps, which holds
      every found candidate. Every later path is the least of its pass's
      heap, and the loop stops short of `K` only on an empty heap. */
  method YenKShortestPaths(g: G.PyGraph, source: int, target: int, K: int, time: bool)
    returns (A: seq<PathLen>, ghost w0: seq<Hop>, ghost rounds: seq<PyRound>)
    modifies g
    requires g.Valid() && CostsReady(g.State(), time) && Known(g.State(), g.nodes) && target in g.nodes
    ensures g.Valid() && g.State() == old(g.State()) && g.nodes == old(g.nodes)
    ensures A == [] <==> NoRoute(View(old(g.State()), time, {}, {}), old(g.nodes).Keys + {source}, source, target)
    ensures |A| <= if K < 1 then 1 else K
    ensures A != [] ==> Distinct(A[0].path)
    ensures A != [] ==> Found(old(g.State()), old(g.nodes).Keys + {source}, source, target, time, {}, {},
                              A[0].path, A[0].length, w0)
    ensures AcceptedOk(old(g.State()), A, source, target, time)
    ensures SingleEntries(old(g.State())) ==> DistinctAccepted(A)
    ensures RoundsPy(old(g.State()), old(g.nodes).Keys, source, target, time, rounds) && PyChain(A, rounds)
    ensures A != [] ==> |rounds| == if |A| < (if K < 1 then 1 else K) then |A| else |A| - 1
    ensures 0 < |A| < (if K < 1 then 1 else K) ==> rounds[|A| - 1].pool == []
  {
    ghost var s0 := g.State();
    rounds := [];
    var first, firstCost, w := DijkstraShortestPath(g.State(), g.nodes, source, target, time, {}, {});
    w0 := w;
    if first == [] {
      return [], w0, rounds;
    }
    FoundToTarget(s0, g.nodes.Keys + {source}, source, target, time, first, firstCost.val, w);
    A := [PathLen(first, firstCost.val)];
    A, rounds := MorePaths(g, s0, A, source, target, K, time);
  }

  /** What holds between passes of the outer loop: `k` answers accepted,
      the first one kept, the heap valid and fresh, every pass recorded,
      and a stop only on an empty heap short of `K`. */
  ghost predicate MoreInv(s0: G.Store, Kn: set<int>, a0: PathLen, A: seq<PathLen>, B: seq<Candidate>,
                          rounds: seq<PyRound>, source: int, target: int, time: bool, k: int, K: int, done: bool)
  {
    1 <= k && |A| == k && (k == 1 || k <= K) && A[0] == a0
    && AcceptedOk(s0, A, source, target, time) && CandOk(s0, B, source, target, time)
    && (SingleEntries(s0) ==> Fresh(A, B) && DistinctAccepted(A))
    && RoundsPy(s0, Kn, source, target, time, rounds) && PyChain(A, rounds)
    && (!done ==> PyThreaded(A, rounds, B))
    && (done ==> |rounds| == |A| && rounds[|A| - 1].pool == [] && k < K)
  }

  /** One pass of the outer loop, with its record appended to `rounds`;
      `k` counts the accepted answers. */
  method Pass(g: G.PyGraph, ghost s0: G.Store, ghost Kn: set<int>, ghost a0: PathLen, A: seq<PathLen>,
              B: seq<Candidate>, ghost rounds: seq<PyRound>, k: int, K: int, source: int, target: int, time: bool)
    returns (done: bool, A': seq<PathLen>, B': seq<Candidate>, ghost rounds': seq<PyRound>, k': int)
    modifies g
    requires g.Valid() && g.State() == s0 && CostsReady(s0, time) && Known(s0, g.nodes) && target in g.nodes
    requires Kn == g.nodes.Keys && k < K
    requires MoreInv(s0, Kn, a0, A, B, rounds, source, target, time, k, K, false)
    ensures g.Valid() && g.State() == s0 && g.nodes == old(g.nodes)
    ensures k' == if done then k else k + 1
    ensures MoreInv(s0, Kn, a0, A', B', rounds', source, target, time, k', K, done)
  {
    ghost var found, pool;
    done, A', B', found, pool := NextPath(g, s0, A, B, source, target, time);
    ghost var r := PyRound(A, B, found, pool);
    PassRecord(s0, Kn, source, target, time, rounds, r, done, A', B');
    rounds' := rounds + [r];
    k' := if done then k else k + 1;
  }

  /** Recording a pass: the record stays valid and threaded, and a pass
      with an empty heap closes it. */
  lemma PassRecord(s0: G.Store, K: set<int>, source: int, target: int, time: bool, rounds: seq<PyRound>,
                   r: PyRound, done: bool, A': seq<PathLen>, B': seq<Candidate>)
    requires RoundsPy(s0, K, source, target, time, rounds) && PyChain(r.accepted, rounds)
    requires PyThreaded(r.accepted, rounds, r.start) && PyRoundOk(s0, K, source, target, time, r)
    requires done <==> r.pool == []
    requires done ==> A' == r.accepted
    requires !done ==> |A'| == |r.accepted| + 1 && A'[..|r.accepted|] == r.accepted && PoppedFrom(r.pool, A'[|r.accepted|])
                       && multiset(B') + multiset{(A'[|r.accepted|].length, A'[|r.accepted|].path)} == multiset(r.pool)
    ensures RoundsPy(s0, K, source, target, time, rounds + [r]) && PyChain(A', rounds + [r])
    ensures !done ==> PyThreaded(A', rounds + [r], B') && A'[0] == r.accepted[0]
    ensures done ==> |rounds + [r]| == |A'| && (rounds + [r])[|A'| - 1].pool == []
  {
    RoundsPySnoc(s0, K, source, target, time, rounds, r);
    if done {
      PyChainStop(r.accepted, rounds, r.start, r);
    } else {
      PyChainStep(r.accepted, rounds, r.start, r, A', B');
      assert A'[..|r.accepted|][0] == A'[0];
    }
  }

  /** Before the first pass: one answer, an empty heap and no recorded pass. */
  lemma PyStart(s0: G.Store, K: set<int>, A: seq<PathLen>, source: int, target: int, time: bool, Kmax: int)
    requires |A| == 1 && AcceptedOk(s0, A, source, target, time)
    ensures MoreInv(s0, K, A[0], A, [], [], source, target, time, 1, Kmax, false)
  {
  }

  /** Leaving the outer loop: at most `max(K, 1)` answers, one pass
      recorded per answer after the first, and one more, with an empty
      heap, when the loop stopped short. */
  lemma MoreExit(s0: G.Store, Kn: set<int>, a0: PathLen, A: seq<PathLen>, B: seq<Candidate>, rounds: seq<PyRound>,
                 source: int, target: int, time: bool, k: int, K: int, done: bool)
    requires MoreInv(s0, Kn, a0, A, B, rounds, source, target, time, k, K, done) && !(k < K && !done)
    ensures 1 <= |A| <= (if K < 1 then 1 else K) && A[0] == a0
    ensures AcceptedOk(s0, A, source, target, time) && (SingleEntries(s0) ==> DistinctAccepted(A))
    ensures RoundsPy(s0, Kn, source, target, time, rounds) && PyChain(A, rounds)
    ensures |rounds| == if |A| < (if K < 1 then 1 else K) then |A| else |A| - 1
    ensures |A| < (if K < 1 then 1 else K) ==> rounds[|A| - 1].pool == []
  {
  }

  /** The outer loop of `yen_k_shortest_paths`, from the shortest path on:
      passes until `K` paths are accepted or a pass's heap is empty. */
  method MorePaths(g: G.PyGraph, ghost s0: G.Store, A: seq<PathLen>, source: int, target: int, K: int, time: bool)
    returns (A': seq<PathLen>, ghost rounds: seq<PyRound>)
    modifies g
    requires g.Valid() && g.State() == s0 && CostsReady(s0, time) && Known(s0, g.nodes) && target in g.nodes
    requires |A| == 1 && AcceptedOk(s0, A, source, target, time)
    ensures g.Valid() && g.State() == s0 && g.nodes == old(g.nodes)
    ensures 1 <= |A'| <= (if K < 1 then 1 else K) && A'[0] == A[0]
    ensures AcceptedOk(s0, A', source, target, time) && (SingleEntries(s0) ==> DistinctAccepted(A'))
    ensures RoundsPy(s0, g.nodes.Keys, source, target, time, rounds) && PyChain(A', rounds)
    ensures |rounds| == if |A'| < (if K < 1 then 1 else K) then |A'| else |A'| - 1
    ensures |A'| < (if K < 1 then 1 else K) ==> rounds[|A'| - 1].pool == []
  {
    A' := A;
    rounds := [];
    var B: seq<Candidate> := [];
    var k := 1;
    var done := false;
    ghost var Kn := g.nodes.Keys;
    PyStart(s0, Kn, A, source, target, time, K);
    while k < K && !done
      invariant g.Valid() && g.State() == s0 && g.nodes == old(g.nodes) && Kn == g.nodes.Keys
      invariant MoreInv(s0, Kn, A[0], A', B, rounds, source, target, time, k, K, done)
      decreases K - k, if done then 0 else 1
    {
      done, A', B, rounds, k := Pass(g, s0, Kn, A[0], A', B, rounds, k, K, source, target, time);
    }
    MoreExit(s0, Kn, A[0], A', B, rounds, source, target, time, k, K, done);
  }
}
