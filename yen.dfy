// Yen's k-shortest loopless paths over the Phase-2 graph. Each spur search
// runs on a fresh copy of the graph whose adjacency is pruned: the next
// hop of every accepted path sharing the root is cut, and the root's nodes
// before the spur node lose every entry into or out of them. Candidates sit
// in a min-queue ordered by (cost, node sequence), and a seen-set keeps any
// node sequence from being queued twice.
module Yen {
  import opened Common
  import opened Walks
  import opened EdgeStore
  import Phase1Algorithms
  import opened Phase2Algorithms
  import Phase2Graph

  /** One returned path and its cost. */
  datatype PathResult = PathResult(path: seq<int>, length: real)

  /** Every entry of `adj'` is an entry of `adj` at the same node. */
  ghost predicate SubAdj(adj': map<int, seq<Edge>>, adj: map<int, seq<Edge>>)
  {
    forall x, a :: a in AdjAt(adj', x) ==> a in AdjAt(adj, x)
  }

  /** `p` begins with `root`. */
  predicate SharesRoot(p: seq<int>, root: seq<int>)
  {
    |p| >= |root| && p[..|root|] == root
  }

  /** The copy after the hop that follows the root is cut from every
      accepted path sharing the root, in the order of `A`. (A path sharing
      the root always goes on past it: paths are simple and end at the
      target, which the root's last node is not.) */
  function CutShared(s: Store, A: seq<PathResult>, root: seq<int>): Store
    requires |root| >= 1
    decreases |A|
  {
    if |A| == 0 then s
    else
      var s' := CutShared(s, A[..|A| - 1], root);
      var p := A[|A| - 1].path;
      if SharesRoot(p, root) && |p| > |root| then Phase2Graph.RemoveBetween(s', p[|root| - 1], p[|root|]).store
      else s'
  }

  /** `adj[node].clear()` when present, then every vector loses its entries
      into `node`. */
  function IsolateAdj(adj: map<int, seq<Edge>>, node: int): (r: map<int, seq<Edge>>)
    ensures r.Keys == adj.Keys
  {
    map n | n in adj :: Phase2Graph.WithoutTarget(if n == node then [] else adj[n], node)
  }

  function IsolateAll(adj: map<int, seq<Edge>>, ns: seq<int>): map<int, seq<Edge>>
    decreases |ns|
  {
    if |ns| == 0 then adj else IsolateAdj(IsolateAll(adj, ns[..|ns| - 1]), ns[|ns| - 1])
  }

  /** The adjacency of the copy the spur search at `prev[i]` runs on. */
  function Pruned(s: Store, A: seq<PathResult>, prev: seq<int>, i: int): map<int, seq<Edge>>
    requires 0 <= i < |prev|
  {
    IsolateAll(CutShared(s, A, prev[..i + 1]).adj, prev[..i])
  }

  /** The first entry of a vector that leads to `v` (`for ... if (e.v == v) {...; break;}`). */
  function FirstMatch(s: seq<Edge>, v: int): (r: Option<Edge>)
    ensures r.None? <==> forall a :: a in s ==> a.v != v
    ensures r.Some? ==> r.value in s && r.value.v == v
    decreases |s|
  {
    if |s| == 0 then None
    else if s[0].v == v then Some(s[0])
    else FirstMatch(s[1..], v)
  }

  /** The match is the first entry leading to `v`: none before it does. */
  lemma {:induction false} FirstMatchFirst(s: seq<Edge>, v: int)
    requires FirstMatch(s, v).Some?
    ensures exists k :: 0 <= k < |s| && s[k] == FirstMatch(s, v).value
                        && forall j :: 0 <= j < k ==> s[j].v != v
    decreases |s|
  {
    if s[0].v != v {
      FirstMatchFirst(s[1..], v);
      var k :| 0 <= k < |s[1..]| && s[1..][k] == FirstMatch(s, v).value
               && forall j :: 0 <= j < k ==> s[1..][j].v != v;
      assert s[k + 1] == FirstMatch(s, v).value;
      assert forall j :: 0 <= j < k + 1 ==> s[j].v != v by {
        forall j | 0 <= j < k + 1
          ensures s[j].v != v
        {
          if j > 0 {
            assert s[j] == s[1..][j - 1];
          }
        }
      }
    } else {
      assert s[0] == FirstMatch(s, v).value;
    }
  }

  /** The scan for that first entry in `adj[u]`, none when `u` has no vector. */
  method FirstEntry(adj: map<int, seq<Edge>>, u: int, v: int) returns (e: Option<Edge>)
    ensures e == FirstMatch(AdjAt(adj, u), v)
  {
    if u !in adj {
      return None;
    }
    var s := adj[u];
    var k := 0;
    while k < |s|
      invariant 0 <= k <= |s|
      invariant FirstMatch(s, v) == FirstMatch(s[k..], v)
    {
      if s[k].v == v {
        return Some(s[k]);
      }
      assert s[k..][1..] == s[k + 1..];
      k := k + 1;
    }
    assert s[k..] == [];
    e := None;
  }

  function LengthOr0(e: Option<Edge>): real
  {
    if e.Some? then e.value.length else 0.0
  }

  /** The root's cost: for each of its first `i` hops the length of the
      first entry leading on, nothing for a hop with none. */
  function RootCostOf(adj: map<int, seq<Edge>>, p: seq<int>, i: int): real
    requires 0 <= i < |p|
    decreases i
  {
    if i == 0 then 0.0 else RootCostOf(adj, p, i - 1) + LengthOr0(FirstMatch(AdjAt(adj, p[i - 1]), p[i]))
  }

  /** The root cost reads only the first `i + 1` nodes. */
  lemma {:induction false} RootCostPrefix(adj: map<int, seq<Edge>>, p: seq<int>, q: seq<int>, i: int)
    requires 0 <= i < |p| && i < |q| && p[..i + 1] == q[..i + 1]
    ensures RootCostOf(adj, p, i) == RootCostOf(adj, q, i)
    decreases i
  {
    if i > 0 {
      assert p[..i] == q[..i] by {
        assert p[..i] == p[..i + 1][..i] && q[..i] == q[..i + 1][..i];
      }
      RootCostPrefix(adj, p, q, i - 1);
      assert p[i - 1] == p[..i + 1][i - 1] && p[i] == p[..i + 1][i];
      assert q[i - 1] == q[..i + 1][i - 1] && q[i] == q[..i + 1][i];
    }
  }

  /** Under non-negative lengths the root cost is non-negative and grows
      with the root. */
  lemma {:induction false} RootCostMono(adj: map<int, seq<Edge>>, p: seq<int>, i: int, j: int)
    requires Phase1Algorithms.CostsOk(adj, false) && 0 <= i <= j < |p|
    ensures 0.0 <= RootCostOf(adj, p, i) <= RootCostOf(adj, p, j)
    decreases j
  {
    if j > 0 {
      var e := FirstMatch(AdjAt(adj, p[j - 1]), p[j]);
      if e.Some? {
        var k :| 0 <= k < |AdjAt(adj, p[j - 1])| && AdjAt(adj, p[j - 1])[k] == e.value;
        assert p[j - 1] in adj;
        assert e.value.length >= 0.0;
      }
      RootCostMono(adj, p, if i < j then i else 0, j - 1);
    }
  }

  method RootCost(adj: map<int, seq<Edge>>, p: seq<int>, i: int) returns (c: real)
    requires 0 <= i < |p|
    ensures c == RootCostOf(adj, p, i)
  {
    c := 0.0;
    var r := 0;
    while r < i
      invariant 0 <= r <= i && c == RootCostOf(adj, p, r)
    {
      var e := FirstEntry(adj, p[r], p[r + 1]);
      if e.Some? {
        c := c + e.value.length;
      }
      r := r + 1;
    }
  }

  /** `std::vector<int>`'s `<=`: lexicographic, a prefix first. */
  predicate LexLe(a: seq<int>, b: seq<int>)
    decreases |a|
  {
    |a| == 0 || (|b| > 0 && (a[0] < b[0] || (a[0] == b[0] && LexLe(a[1..], b[1..]))))
  }

  lemma {:induction false} LexTotal(a: seq<int>, b: seq<int>)
    ensures LexLe(a, b) || LexLe(b, a)
    decreases |a|
  {
    if |a| > 0 && |b| > 0 && a[0] == b[0] {
      LexTotal(a[1..], b[1..]);
    }
  }

  lemma {:induction false} LexTrans(a: seq<int>, b: seq<int>, c: seq<int>)
    requires LexLe(a, b) && LexLe(b, c)
    ensures LexLe(a, c)
    decreases |a|
  {
    if |a| > 0 && a[0] == b[0] && b[0] == c[0] {
      LexTrans(a[1..], b[1..], c[1..]);
    }
  }

  /** The order of the candidate heap: cost first, then node sequence. */
  predicate CandLe(x: (real, seq<int>), y: (real, seq<int>))
  {
    x.0 < y.0 || (x.0 == y.0 && LexLe(x.1, y.1))
  }

  /** `B.top(); B.pop()`: a least candidate. */
  method PopCandidate(B: set<(real, seq<int>)>) returns (c: (real, seq<int>))
    requires B != {}
    ensures c in B && forall d :: d in B ==> CandLe(c, d)
  {
    c := Pick(B);
    var rest := B - {c};
    LexTotal(c.1, c.1);
    while rest != {}
      invariant rest <= B && c in B
      invariant forall d :: d in B && d !in rest ==> CandLe(c, d)
      decreases |rest|
    {
      var x := Pick(rest);
      LexTotal(x.1, c.1);
      if CandLe(x, c) {
        forall d | d in B && d !in rest
          ensures CandLe(x, d)
        {
          if x.0 == c.0 && c.0 == d.0 {
            LexTrans(x.1, c.1, d.1);
          }
        }
        c := x;
      }
      LexTotal(c.1, c.1);
      rest := rest - {x};
    }
  }

  lemma SubTrans(a: map<int, seq<Edge>>, b: map<int, seq<Edge>>, c: map<int, seq<Edge>>)
    requires SubAdj(a, b) && SubAdj(b, c)
    ensures SubAdj(a, c)
  {
  }

  /** Pruning never adds an entry, so it keeps lengths non-negative. */
  lemma CostsSub(adj': map<int, seq<Edge>>, adj: map<int, seq<Edge>>)
    requires Phase1Algorithms.CostsOk(adj, false) && SubAdj(adj', adj)
    ensures Phase1Algorithms.CostsOk(adj', false)
  {
    forall u, i | u in adj' && 0 <= i < |adj'[u]|
      ensures adj'[u][i].length >= 0.0
    {
      assert adj'[u][i] in AdjAt(adj', u);
      assert adj'[u][i] in AdjAt(adj, u);
      var k :| 0 <= k < |adj[u]| && adj[u][k] == adj'[u][i];
    }
  }

  lemma {:induction false} CutFacts(s: Store, A: seq<PathResult>, root: seq<int>)
    requires |root| >= 1
    ensures var c := CutShared(s, A, root).adj;
            SubAdj(c, s.adj)
            && forall j :: 0 <= j < |A| && SharesRoot(A[j].path, root) && |A[j].path| > |root|
                 ==> !HasEntry(c, A[j].path[|root| - 1], A[j].path[|root|])
    decreases |A|
  {
    if |A| > 0 {
      var s' := CutShared(s, A[..|A| - 1], root);
      CutFacts(s, A[..|A| - 1], root);
      var p := A[|A| - 1].path;
      var c := CutShared(s, A, root).adj;
      if SharesRoot(p, root) && |p| > |root| && p[|root| - 1] in s'.adj {
        Phase2Graph.WithoutTargetMembers(s'.adj[p[|root| - 1]], p[|root|]);
      }
      assert SubAdj(c, s'.adj);
      SubTrans(c, s'.adj, s.adj);
      forall j | 0 <= j < |A| && SharesRoot(A[j].path, root) && |A[j].path| > |root|
        ensures !HasEntry(c, A[j].path[|root| - 1], A[j].path[|root|])
      {
        var q := A[j].path;
        if j < |A| - 1 {
          assert A[..|A| - 1][j] == A[j];
          assert !HasEntry(s'.adj, q[|root| - 1], q[|root|]);
          forall a | a in AdjAt(c, q[|root| - 1])
            ensures a.v != q[|root|]
          {
            assert a in AdjAt(s'.adj, q[|root| - 1]);
          }
        }
      }
    }
  }

  lemma IsolateFacts1(adj: map<int, seq<Edge>>, node: int)
    ensures SubAdj(IsolateAdj(adj, node), adj)
    ensures forall x, a :: a in AdjAt(IsolateAdj(adj, node), x) ==> a.v != node
  {
    var r := IsolateAdj(adj, node);
    forall n | n in adj
      ensures forall a: Edge :: a in r[n] ==> a.v != node && n != node && a in adj[n]
    {
      Phase2Graph.WithoutTargetMembers(if n == node then [] else adj[n], node);
    }
  }

  lemma {:induction false} IsolateFacts(adj: map<int, seq<Edge>>, ns: seq<int>)
    ensures SubAdj(IsolateAll(adj, ns), adj)
    ensures forall x, a :: a in AdjAt(IsolateAll(adj, ns), x) ==> a.v !in ns
    decreases |ns|
  {
    if |ns| > 0 {
      var p := ns[..|ns| - 1];
      var last := ns[|ns| - 1];
      IsolateFacts(adj, p);
      var m := IsolateAll(adj, p);
      IsolateFacts1(m, last);
      SubTrans(IsolateAll(adj, ns), m, adj);
      assert ns == p + [last];
    }
  }

  /** The pruned copy holds only entries of the graph, none into a root node
      before the spur node, and none for the cut hops. */
  lemma PrunedFacts(s: Store, A: seq<PathResult>, prev: seq<int>, i: int)
    requires 0 <= i < |prev|
    ensures var pr := Pruned(s, A, prev, i);
            SubAdj(pr, s.adj)
            && (forall x, a :: a in AdjAt(pr, x) ==> a.v !in prev[..i])
            && forall j :: 0 <= j < |A| && SharesRoot(A[j].path, prev[..i + 1]) && |A[j].path| > i + 1
                 ==> !HasEntry(pr, A[j].path[i], A[j].path[i + 1])
  {
    var root := prev[..i + 1];
    var c := CutShared(s, A, root).adj;
    var pr := Pruned(s, A, prev, i);
    CutFacts(s, A, root);
    IsolateFacts(c, prev[..i]);
    SubTrans(pr, c, s.adj);
    forall j | 0 <= j < |A| && SharesRoot(A[j].path, root) && |A[j].path| > i + 1
      ensures !HasEntry(pr, A[j].path[i], A[j].path[i + 1])
    {
      forall a | a in AdjAt(pr, A[j].path[i])
        ensures a.v != A[j].path[i + 1]
      {
        assert a in AdjAt(c, A[j].path[i]);
      }
    }
  }

  /** Accepted paths: simple paths of the graph from `src` to `tgt`,
      pairwise different, every one after the first below the sentinel. */
  ghost predicate AcceptedOk(adj: map<int, seq<Edge>>, K: set<int>, src: int, tgt: int, A: seq<PathResult>)
  {
    (forall j :: 0 <= j < |A| ==> PathIn(adj, K, src, tgt, A[j].path) && Distinct(A[j].path))
    && (forall j, l :: 0 <= j < l < |A| ==> A[j].path != A[l].path)
    && (forall j :: 1 <= j < |A| ==> A[j].length < SENTINEL)
  }

  /** Queued candidates: simple paths of the graph below the sentinel, seen,
      not accepted, one entry per node sequence. */
  ghost predicate PendingOk(adj: map<int, seq<Edge>>, K: set<int>, src: int, tgt: int, A: seq<PathResult>,
                            B: set<(real, seq<int>)>, visited: set<seq<int>>)
  {
    (forall c :: c in B ==> PathIn(adj, K, src, tgt, c.1) && Distinct(c.1) && c.0 < SENTINEL && c.1 in visited)
    && (forall c, j :: c in B && 0 <= j < |A| ==> A[j].path != c.1)
    && (forall c, d :: c in B && d in B && c.1 == d.1 ==> c == d)
  }

  /** Where a candidate came from: the spur round at index `.1` of the last
      path of the first `.0` accepted ones, with spur cost `.2`. */
  type SpurInfo = (nat, int, real)

  /** Yen's cost decomposition of candidate `c`: it shares the first
      `t.1 + 1` nodes of its parent path, and its cost is the root cost of
      those hops plus the cost of a shortest spur route on the copy pruned
      for that round. */
  ghost predicate SpurOf(s: Store, K: set<int>, tgt: int, A: seq<PathResult>, c: (real, seq<int>), t: SpurInfo)
  {
    1 <= t.0 <= |A| && 0 <= t.1 < |A[t.0 - 1].path| - 1 && |c.1| > t.1
    && c.1[..t.1 + 1] == A[t.0 - 1].path[..t.1 + 1]
    && c.0 == RootCostOf(s.adj, c.1, t.1) + t.2
    && SpurPath(Pruned(s, A[..t.0], A[t.0 - 1].path, t.1), K, c.1[t.1], tgt, c.1[t.1..], t.2)
  }

  /** Every queued candidate has a recorded origin. */
  ghost predicate Sourced(s: Store, K: set<int>, tgt: int, A: seq<PathResult>, B: set<(real, seq<int>)>,
                          info: map<seq<int>, SpurInfo>)
  {
    forall c :: c in B ==> c.1 in info && SpurOf(s, K, tgt, A, c, info[c.1])
  }

  /** An accepted answer as a queue entry. */
  function Cand(r: PathResult): (real, seq<int>)
  {
    (r.length, r.path)
  }

  /** Every accepted answer after the first came from a spur round of an
      earlier answer, with Yen's cost decomposition. */
  ghost predicate SpursOk(s: Store, K: set<int>, tgt: int, A: seq<PathResult>, spurs: seq<SpurInfo>)
  {
    |spurs| == |A|
    && forall j :: 1 <= j < |A| ==> spurs[j].0 <= j && SpurOf(s, K, tgt, A, Cand(A[j]), spurs[j])
  }

  /** A shortest route of the pruned copy from the spur node, with its nodes
      and cost. */
  ghost predicate SpurPath(adj: map<int, seq<Edge>>, K: set<int>, s: int, t: int, sp: seq<int>, c: real)
  {
    ArcsPre(LengthView(adj))
    && exists w :: Route(LengthView(adj), K, s, t, w) && Nodes(LengthView(adj), s, w) == sp
                   && Arrive(LengthView(adj), s, w, 0.0) == c && Shortest(LengthView(adj), K, s, t, c)
  }

  /** A path sharing the root goes on past it. */
  lemma RootNotWhole(tgt: int, prev: seq<int>, i: int, p: seq<int>)
    requires Distinct(prev) && |prev| >= 1 && prev[|prev| - 1] == tgt && 0 <= i < |prev| - 1
    requires |p| >= 1 && p[|p| - 1] == tgt && SharesRoot(p, prev[..i + 1])
    ensures |p| > i + 1
  {
    assert p[i] == prev[..i + 1][i] == prev[i] != tgt;
  }

  /** The root followed by the spur path is a simple path of the graph. */
  lemma CandidateOk(adj: map<int, seq<Edge>>, pr: map<int, seq<Edge>>, K: set<int>, src: int, tgt: int,
                    prev: seq<int>, i: int, sp: seq<int>, total: seq<int>)
    requires SubAdj(pr, adj)
    requires PathIn(adj, K, src, tgt, prev) && Distinct(prev) && 0 <= i < |prev| - 1
    requires PathIn(pr, K, prev[i], tgt, sp) && Distinct(sp)
    requires forall x, a :: a in AdjAt(pr, x) ==> a.v !in prev[..i]
    requires total == prev[..i + 1] + sp[1..]
    ensures PathIn(adj, K, src, tgt, total) && Distinct(total)
  {
    assert |total| == i + |sp|;
    assert forall k :: 0 <= k <= i ==> total[k] == prev[k];
    assert forall k :: i <= k < |total| ==> total[k] == sp[k - i];
    forall k | 0 <= k < |total| - 1
      ensures HasEntry(adj, total[k], total[k + 1])
    {
      if k < i {
        assert HasEntry(adj, prev[k], prev[k + 1]);
      } else {
        assert HasEntry(pr, sp[k - i], sp[k - i + 1]);
        var a :| a in AdjAt(pr, sp[k - i]) && a.v == sp[k - i + 1];
        assert a in AdjAt(adj, sp[k - i]);
      }
    }
    forall x | x in total
      ensures x in K
    {
      var k :| 0 <= k < |total| && total[k] == x;
      if k <= i {
        assert prev[k] in prev;
      } else {
        assert sp[k - i] in sp;
      }
    }
    forall a, b | 0 <= a < b < |total|
      ensures total[a] != total[b]
    {
      if b > i && a < i {
        assert HasEntry(pr, sp[b - i - 1], sp[b - i]);
        var e :| e in AdjAt(pr, sp[b - i - 1]) && e.v == sp[b - i];
        assert prev[..i][a] == prev[a];
      }
    }
  }

  /** The candidate is none of the accepted paths: one sharing its root
      would have to leave the root by its own next hop, which is cut. */
  lemma CandidateNew(pr: map<int, seq<Edge>>, tgt: int, A: seq<PathResult>, prev: seq<int>, i: int,
                     sp: seq<int>, total: seq<int>)
    requires forall j :: 0 <= j < |A| ==> |A[j].path| >= 1 && A[j].path[|A[j].path| - 1] == tgt
    requires Distinct(prev) && |prev| >= 1 && prev[|prev| - 1] == tgt && 0 <= i < |prev| - 1
    requires |sp| >= 1 && sp[0] == prev[i] && sp[|sp| - 1] == tgt && Linked(pr, sp)
    requires total == prev[..i + 1] + sp[1..]
    requires forall j :: 0 <= j < |A| && SharesRoot(A[j].path, prev[..i + 1]) && |A[j].path| > i + 1
               ==> !HasEntry(pr, A[j].path[i], A[j].path[i + 1])
    ensures forall j :: 0 <= j < |A| ==> A[j].path != total
    ensures |total| > i + 1
    ensures forall j :: 0 <= j < |A| && SharesRoot(A[j].path, prev[..i + 1]) && |A[j].path| > i + 1
               ==> total[i + 1] != A[j].path[i + 1]
  {
    assert prev[i] != tgt;
    assert total[..i + 1] == prev[..i + 1];
    assert total[i] == sp[0] && total[i + 1] == sp[1];
    assert HasEntry(pr, total[i], total[i + 1]);
  }

  /** `g_copy.adj[node].clear()` and the erase of every entry into `node`,
      on the adjacency map. */
  method IsolateMap(adj: map<int, seq<Edge>>, node: int) returns (m: map<int, seq<Edge>>)
    ensures m == IsolateAdj(adj, node)
  {
    ghost var target := IsolateAdj(adj, node);
    m := map[];
    var keys := adj.Keys;
    while keys != {}
      invariant keys <= adj.Keys && m.Keys == adj.Keys - keys
      invariant forall n :: n in m ==> m[n] == target[n]
      decreases |keys|
    {
      var n := Pick(keys);
      var vec := if n == node then [] else adj[n];
      m := m[n := Phase2Graph.WithoutTarget(vec, node)];
      keys := keys - {n};
    }
    MapsEqual(m, target);
  }

  lemma MapsEqual<K, V>(m: map<K, V>, m': map<K, V>)
    requires m.Keys == m'.Keys && forall n :: n in m ==> m[n] == m'[n]
    ensures m == m'
  {
  }

  /** The same on the copy. */
  method IsolateNode(gc: Phase2Graph.Graph, node: int)
    modifies gc
    ensures gc.adj == IsolateAdj(old(gc.adj), node)
    ensures gc.nodes == old(gc.nodes) && gc.edgeById == old(gc.edgeById) && gc.removedEdges == old(gc.removedEdges)
  {
    var m := IsolateMap(gc.adj, node);
    gc.adj := m;
  }

  /** The copy the spur search at `prev[i]` runs on: the graph with the
      shared next hops cut and the root's earlier nodes isolated. */
  method PrunedCopy(nodes: map<int, Node>, s: Store, A: seq<PathResult>, prev: seq<int>, i: int, tgt: int)
    returns (gc: Phase2Graph.Graph)
    requires forall j :: 0 <= j < |A| ==> |A[j].path| >= 1 && A[j].path[|A[j].path| - 1] == tgt
    requires 0 <= i < |prev| - 1 && Distinct(prev) && prev[|prev| - 1] == tgt
    ensures fresh(gc) && gc.nodes == nodes && gc.adj == Pruned(s, A, prev, i)
  {
    var root := prev[..i + 1];
    gc := new Phase2Graph.Graph();
    gc.nodes, gc.adj, gc.edgeById, gc.removedEdges := nodes, s.adj, s.index, s.removed;
    var j := 0;
    while j < |A|
      invariant 0 <= j <= |A|
      invariant gc.nodes == nodes && gc.State() == CutShared(s, A[..j], root)
    {
      var p := A[j].path;
      if |p| > i && p[..i + 1] == root {
        RootNotWhole(tgt, prev, i, p);
        var removed := gc.RemoveEdgeBetween(p[i], p[i + 1]);
      }
      assert A[..j + 1][..j] == A[..j];
      j := j + 1;
    }
    assert A[..j] == A;
    ghost var cut := gc.adj;
    var r := 0;
    while r < i
      invariant 0 <= r <= i
      invariant gc.nodes == nodes && gc.adj == IsolateAll(cut, prev[..r])
    {
      IsolateNode(gc, prev[r]);
      assert prev[..r + 1][..r] == prev[..r];
      r := r + 1;
    }
  }

  /** The candidate a successful spur search yields. */
  lemma SpurJoin(s: Store, K: set<int>, A: seq<PathResult>, prev: seq<int>, i: int, src: int, tgt: int,
                 w: seq<Hop>, sp: seq<int>, c: real, total: seq<int>)
    requires forall j :: 0 <= j < |A| ==> PathIn(s.adj, K, src, tgt, A[j].path)
    requires PathIn(s.adj, K, src, tgt, prev) && Distinct(prev) && 0 <= i < |prev| - 1
    requires ArcsPre(LengthView(Pruned(s, A, prev, i)))
    requires Route(LengthView(Pruned(s, A, prev, i)), K, prev[i], tgt, w)
    requires Nodes(LengthView(Pruned(s, A, prev, i)), prev[i], w) == sp && Distinct(sp)
    requires Arrive(LengthView(Pruned(s, A, prev, i)), prev[i], w, 0.0) == c
    requires Shortest(LengthView(Pruned(s, A, prev, i)), K, prev[i], tgt, c)
    requires total == prev[..i + 1] + sp[1..]
    ensures PathIn(s.adj, K, src, tgt, total) && Distinct(total)
    ensures forall j :: 0 <= j < |A| ==> A[j].path != total
    ensures |total| > i && total[..i + 1] == prev[..i + 1]
    ensures forall j :: 0 <= j < |A| && SharesRoot(A[j].path, prev[..i + 1]) && |A[j].path| > i + 1
              ==> |total| > i + 1 && total[i + 1] != A[j].path[i + 1]
    ensures SpurPath(Pruned(s, A, prev, i), K, prev[i], tgt, total[i..], c)
  {
    var pr := Pruned(s, A, prev, i);
    PrunedFacts(s, A, prev, i);
    RouteLinked(pr, K, prev[i], tgt, w);
    CandidateOk(s.adj, pr, K, src, tgt, prev, i, sp, total);
    CandidateNew(pr, tgt, A, prev, i, sp, total);
    assert total[i..] == sp;
    assert Route(LengthView(pr), K, prev[i], tgt, w) && Nodes(LengthView(pr), prev[i], w) == total[i..];
  }

  /** One spur round (the body of the inner loop up to the seen-set test):
      the root cost, the pruned copy, the spur search and the joined
      candidate. */
  method SpurCandidate(nodes: map<int, Node>, s: Store, A: seq<PathResult>, prev: seq<int>, i: int, ghost src: int, tgt: int)
    returns (found: bool, total: seq<int>, cost: real, ghost spurCost: real)
    requires Phase1Algorithms.CostsOk(s.adj, false)
    requires forall j :: 0 <= j < |A| ==> PathIn(s.adj, nodes.Keys, src, tgt, A[j].path)
    requires PathIn(s.adj, nodes.Keys, src, tgt, prev) && Distinct(prev) && 0 <= i < |prev| - 1
    ensures found ==> PathIn(s.adj, nodes.Keys, src, tgt, total) && Distinct(total)
    ensures found ==> forall j :: 0 <= j < |A| ==> A[j].path != total
    ensures found ==> |total| > i && total[..i + 1] == prev[..i + 1]
    ensures found && |A| >= 1 && prev == A[|A| - 1].path ==> Leaves(prev, i, total)
    ensures found ==> cost == RootCostOf(s.adj, prev, i) + spurCost
                      && SpurPath(Pruned(s, A, prev, i), nodes.Keys, prev[i], tgt, total[i..], spurCost)
    ensures !found ==> NoRoute(LengthView(Pruned(s, A, prev, i)), nodes.Keys, prev[i], tgt)
  {
    var rootCost := RootCost(s.adj, prev, i);
    var gc := PrunedCopy(nodes, s, A, prev, i, tgt);
    PrunedFacts(s, A, prev, i);
    CostsSub(gc.adj, s.adj);
    LengthViewFifo(gc.adj);
    var res: Phase1Algorithms.SPResult;
    ghost var w: seq<Hop>;
    res, w := Dijkstra(gc.nodes, gc.adj, prev[i], tgt);
    if !res.possible {
      return false, [], 0.0, 0.0;
    }
    found := true;
    total := prev[..i + 1] + res.path[1..];
    cost := rootCost + res.cost;
    spurCost := res.cost;
    SpurJoin(s, nodes.Keys, A, prev, i, src, tgt, w, res.path, res.cost, total);
    if |A| >= 1 && prev == A[|A| - 1].path {
      LastLeaves(A, prev, i, total);
    }
  }

  /** What the spur search at index `i` of the last accepted path gives:
      nothing exactly when the copy pruned for that round has no route from
      the spur node, and otherwise a candidate with Yen's cost decomposition
      for that round. */
  ghost predicate SpurResult(s: Store, K: set<int>, tgt: int, A: seq<PathResult>, i: int, f: Option<(real, seq<int>)>)
  {
    |A| >= 1 && 0 <= i < |A[|A| - 1].path| - 1
    && (f.None? <==> NoRoute(LengthView(Pruned(s, A, A[|A| - 1].path, i)), K, A[|A| - 1].path[i], tgt))
    && (f.Some? ==> exists sc :: SpurOf(s, K, tgt, A, f.value, (|A|, i, sc)))
  }

  /** The node sequences the spur results of a round mark as seen. */
  function SeenBy(found: seq<Option<(real, seq<int>)>>): set<seq<int>>
    decreases |found|
  {
    if |found| == 0 then {}
    else
      var f := found[|found| - 1];
      SeenBy(found[..|found| - 1]) + (if f.Some? then {f.value.1} else {})
  }

  /** The candidates the spur results of a round push, in order and given
      the node sequences seen before the round: each found one whose node
      sequence was not seen yet, when below the sentinel. */
  function QueuedBy(found: seq<Option<(real, seq<int>)>>, seen: set<seq<int>>): set<(real, seq<int>)>
    decreases |found|
  {
    if |found| == 0 then {}
    else
      var f := found[|found| - 1];
      var init := found[..|found| - 1];
      QueuedBy(init, seen)
        + (if f.Some? && f.value.1 !in seen + SeenBy(init) && f.value.0 < SENTINEL then {f.value} else {})
  }

  /** A route in the pruned copy rules out "no route". */
  lemma SpurPathRoute(adj: map<int, seq<Edge>>, K: set<int>, s: int, t: int, sp: seq<int>, c: real)
    requires SpurPath(adj, K, s, t, sp, c)
    ensures !NoRoute(LengthView(adj), K, s, t)
  {
    var w :| Route(LengthView(adj), K, s, t, w) && Nodes(LengthView(adj), s, w) == sp
             && Arrive(LengthView(adj), s, w, 0.0) == c && Shortest(LengthView(adj), K, s, t, c);
  }

  /** A candidate from spur index `i` of `prev` keeps the first `i + 1`
      nodes and then leaves by another hop. */
  predicate Leaves(prev: seq<int>, i: int, p: seq<int>)
  {
    0 <= i && |p| > i + 1 && |prev| > i + 1 && p[..i + 1] == prev[..i + 1] && p[i + 1] != prev[i + 1]
  }

  /** Every found candidate of a round on `prev` leaves it at its own index. */
  predicate LeavesAll(prev: seq<int>, found: seq<Option<(real, seq<int>)>>)
  {
    forall j :: 0 <= j < |found| && found[j].Some? ==> Leaves(prev, j, found[j].value.1)
  }

  /** Every index of a round has its spur result, index by index. */
  ghost predicate SpursFound(s: Store, K: set<int>, tgt: int, A: seq<PathResult>, found: seq<Option<(real, seq<int>)>>)
    decreases |found|
  {
    |found| == 0
    || (SpursFound(s, K, tgt, A, found[..|found| - 1]) && SpurResult(s, K, tgt, A, |found| - 1, found[|found| - 1]))
  }

  /** Spur index `i` of a recorded round has its spur result. */
  lemma {:induction false} SpursFoundAt(s: Store, K: set<int>, tgt: int, A: seq<PathResult>,
                                        found: seq<Option<(real, seq<int>)>>, i: int)
    requires SpursFound(s, K, tgt, A, found) && 0 <= i < |found|
    ensures SpurResult(s, K, tgt, A, i, found[i])
    decreases |found|
  {
    if i < |found| - 1 {
      var init := found[..|found| - 1];
      SpursFoundAt(s, K, tgt, A, init, i);
      assert init[i] == found[i];
    }
  }

  lemma SpursFoundSnoc(s: Store, K: set<int>, tgt: int, A: seq<PathResult>, found: seq<Option<(real, seq<int>)>>,
                       f: Option<(real, seq<int>)>)
    requires SpursFound(s, K, tgt, A, found) && SpurResult(s, K, tgt, A, |found|, f)
    ensures SpursFound(s, K, tgt, A, found + [f])
  {
    assert (found + [f])[..|found|] == found;
  }

  /** A candidate that shares the first `i + 1` nodes of `prev` was not
      found at an earlier spur index. */
  lemma {:induction false} NotSeenBefore(prev: seq<int>, found: seq<Option<(real, seq<int>)>>, i: int, p: seq<int>)
    requires LeavesAll(prev, found)
    requires |found| <= i < |p| && i < |prev| && p[..i + 1] == prev[..i + 1]
    ensures p !in SeenBy(found)
    decreases |found|
  {
    if |found| > 0 {
      var j := |found| - 1;
      var init := found[..j];
      assert forall l :: 0 <= l < |init| ==> init[l] == found[l];
      NotSeenBefore(prev, init, i, p);
      if found[j].Some? {
        assert Leaves(prev, j, found[j].value.1);
        assert p[j + 1] == p[..i + 1][j + 1] == prev[j + 1];
      }
    }
  }

  /** Every spur index of a round queues its candidate when the node
      sequence was not seen before the round and the cost is below the
      sentinel; nothing else is queued. */
  lemma {:induction false} QueuedAll(prev: seq<int>, found: seq<Option<(real, seq<int>)>>, seen: set<seq<int>>)
    requires LeavesAll(prev, found)
    ensures forall j :: (0 <= j < |found| && found[j].Some? && found[j].value.1 !in seen
                         && found[j].value.0 < SENTINEL) ==> found[j].value in QueuedBy(found, seen)
    ensures forall c :: c in QueuedBy(found, seen) ==> Some(c) in found
    decreases |found|
  {
    if |found| > 0 {
      var n := |found| - 1;
      var init := found[..n];
      assert forall l :: 0 <= l < |init| ==> init[l] == found[l];
      QueuedAll(prev, init, seen);
      var f := found[n];
      if f.Some? {
        assert Leaves(prev, n, f.value.1);
        NotSeenBefore(prev, init, n, f.value.1);
      }
      assert found == init + [f];
    }
  }

  /** One more spur index keeps the seen set and the queue what the
      recorded spur results say. */
  lemma RoundSnoc(prev: seq<int>, found: seq<Option<(real, seq<int>)>>, f: Option<(real, seq<int>)>,
                  visited: set<seq<int>>, B: set<(real, seq<int>)>, V: set<seq<int>>, Q: set<(real, seq<int>)>,
                  V': set<seq<int>>, Q': set<(real, seq<int>)>)
    requires V == visited + SeenBy(found) && Q == B + QueuedBy(found, visited)
    requires V' == (if f.Some? then V + {f.value.1} else V)
    requires Q' == (if f.Some? && f.value.1 !in V && f.value.0 < SENTINEL then Q + {f.value} else Q)
    requires LeavesAll(prev, found) && (f.Some? ==> Leaves(prev, |found|, f.value.1))
    ensures V' == visited + SeenBy(found + [f]) && Q' == B + QueuedBy(found + [f], visited)
    ensures LeavesAll(prev, found + [f])
  {
    var found' := found + [f];
    assert found'[..|found|] == found;
    assert forall j :: 0 <= j < |found| ==> found'[j] == found[j];
  }

  /** The inner loop: one spur round per node of the last accepted path
      but its last. `found[i]` is what the spur search at index `i` gave;
      the seen set gains every found node sequence, and the queue gains
      exactly the found candidates not seen before the round and below the
      sentinel, each recorded in `info'` with the spur round that produced
      it. */
  method SpurRounds(nodes: map<int, Node>, s: Store, A: seq<PathResult>, B: set<(real, seq<int>)>,
                    visited: set<seq<int>>, ghost info: map<seq<int>, SpurInfo>, ghost src: int, tgt: int)
    returns (B': set<(real, seq<int>)>, visited': set<seq<int>>, ghost info': map<seq<int>, SpurInfo>,
             ghost found: seq<Option<(real, seq<int>)>>)
    requires Phase1Algorithms.CostsOk(s.adj, false) && |A| >= 1
    requires AcceptedOk(s.adj, nodes.Keys, src, tgt, A)
    requires PendingOk(s.adj, nodes.Keys, src, tgt, A, B, visited)
    requires Sourced(s, nodes.Keys, tgt, A, B, info)
    ensures PendingOk(s.adj, nodes.Keys, src, tgt, A, B', visited')
    ensures Sourced(s, nodes.Keys, tgt, A, B', info')
    ensures |found| == |A[|A| - 1].path| - 1
    ensures SpursFound(s, nodes.Keys, tgt, A, found)
    ensures visited' == visited + SeenBy(found) && B' == B + QueuedBy(found, visited)
    ensures forall i :: (0 <= i < |found| && found[i].Some? && found[i].value.1 !in visited
                         && found[i].value.0 < SENTINEL) ==> found[i].value in B'
  {
    B', visited', info' := B, visited, info;
    found := [];
    var prev := A[|A| - 1].path;
    assert PathIn(s.adj, nodes.Keys, src, tgt, prev) && Distinct(prev);
    var i := 0;
    while i < |prev| - 1
      invariant 0 <= i <= |prev| - 1 && |found| == i
      invariant SpursFound(s, nodes.Keys, tgt, A, found) && LeavesAll(prev, found)
      invariant visited' == visited + SeenBy(found) && B' == B + QueuedBy(found, visited)
      invariant PendingOk(s.adj, nodes.Keys, src, tgt, A, B', visited')
      invariant Sourced(s, nodes.Keys, tgt, A, B', info')
    {
      var f;
      ghost var old_visited, old_B := visited', B';
      B', visited', info', f := SpurStep(nodes, s, A, B', visited', info', prev, i, src, tgt);
      SpursFoundSnoc(s, nodes.Keys, tgt, A, found, f);
      RoundSnoc(prev, found, f, visited, B, old_visited, old_B, visited', B');
      found := found + [f];
      i := i + 1;
    }
    QueuedAll(prev, found, visited);
  }

  /** The spur step at index `i` of the last accepted path: `f` is what the
      spur search gave; a found candidate not seen before is marked seen,
      and queued with its origin when below the sentinel. */
  method SpurStep(nodes: map<int, Node>, s: Store, A: seq<PathResult>, B: set<(real, seq<int>)>,
                  visited: set<seq<int>>, ghost info: map<seq<int>, SpurInfo>, prev: seq<int>, i: int,
                  ghost src: int, tgt: int)
    returns (B': set<(real, seq<int>)>, visited': set<seq<int>>, ghost info': map<seq<int>, SpurInfo>,
             f: Option<(real, seq<int>)>)
    requires Phase1Algorithms.CostsOk(s.adj, false) && |A| >= 1 && prev == A[|A| - 1].path
    requires PathIn(s.adj, nodes.Keys, src, tgt, prev) && Distinct(prev) && 0 <= i < |prev| - 1
    requires forall j :: 0 <= j < |A| ==> PathIn(s.adj, nodes.Keys, src, tgt, A[j].path)
    requires PendingOk(s.adj, nodes.Keys, src, tgt, A, B, visited)
    requires Sourced(s, nodes.Keys, tgt, A, B, info)
    ensures PendingOk(s.adj, nodes.Keys, src, tgt, A, B', visited')
    ensures Sourced(s, nodes.Keys, tgt, A, B', info')
    ensures SpurResult(s, nodes.Keys, tgt, A, i, f) && (f.Some? ==> Leaves(prev, i, f.value.1))
    ensures visited' == if f.Some? then visited + {f.value.1} else visited
    ensures B' == if f.Some? && f.value.1 !in visited && f.value.0 < SENTINEL then B + {f.value} else B
  {
    ghost var spurCost;
    f, spurCost := SpurSearch(nodes, s, A, prev, i, src, tgt);
    B', visited', info' := Enqueue(s, nodes.Keys, A, B, visited, info, f, (|A|, i, spurCost), src, tgt);
  }

  /** The spur search at index `i` of the last accepted path, with the
      candidate it yields (`total` and `total_cost`) when the pruned copy
      has a route. */
  method SpurSearch(nodes: map<int, Node>, s: Store, A: seq<PathResult>, prev: seq<int>, i: int,
                    ghost src: int, tgt: int)
    returns (r: Option<(real, seq<int>)>, ghost spurCost: real)
    requires Phase1Algorithms.CostsOk(s.adj, false) && |A| >= 1 && prev == A[|A| - 1].path
    requires forall j :: 0 <= j < |A| ==> PathIn(s.adj, nodes.Keys, src, tgt, A[j].path)
    requires PathIn(s.adj, nodes.Keys, src, tgt, prev) && Distinct(prev) && 0 <= i < |prev| - 1
    ensures SpurResult(s, nodes.Keys, tgt, A, i, r)
    ensures r.Some? ==> Leaves(prev, i, r.value.1) && SpurOf(s, nodes.Keys, tgt, A, r.value, (|A|, i, spurCost))
    ensures r.Some? ==> PathIn(s.adj, nodes.Keys, src, tgt, r.value.1) && Distinct(r.value.1)
                        && forall j :: 0 <= j < |A| ==> A[j].path != r.value.1
  {
    var found, total, cost;
    found, total, cost, spurCost := SpurCandidate(nodes, s, A, prev, i, src, tgt);
    if !found {
      r := None;
    } else {
      r := Some((cost, total));
      SpurFound(s, nodes.Keys, tgt, A, prev, i, total, cost, spurCost);
      SpurPathRoute(Pruned(s, A, prev, i), nodes.Keys, prev[i], tgt, total[i..], spurCost);
    }
  }

  /** `if (!spur_res.possible) continue; ... if (visited.count(total))
      continue; visited.insert(total); if (total_cost < 1e18) B.push(...)`:
      a found candidate is marked seen, and one not seen before is queued
      with its origin when below the sentinel. */
  method Enqueue(s: Store, K: set<int>, A: seq<PathResult>, B: set<(real, seq<int>)>, visited: set<seq<int>>,
                 ghost info: map<seq<int>, SpurInfo>, f: Option<(real, seq<int>)>, ghost t: SpurInfo,
                 ghost src: int, ghost tgt: int)
    returns (B': set<(real, seq<int>)>, visited': set<seq<int>>, ghost info': map<seq<int>, SpurInfo>)
    requires PendingOk(s.adj, K, src, tgt, A, B, visited) && Sourced(s, K, tgt, A, B, info)
    requires f.Some? ==> PathIn(s.adj, K, src, tgt, f.value.1) && Distinct(f.value.1)
                         && (forall j :: 0 <= j < |A| ==> A[j].path != f.value.1)
                         && SpurOf(s, K, tgt, A, f.value, t)
    ensures PendingOk(s.adj, K, src, tgt, A, B', visited') && Sourced(s, K, tgt, A, B', info')
    ensures visited' == if f.Some? then visited + {f.value.1} else visited
    ensures B' == if f.Some? && f.value.1 !in visited && f.value.0 < SENTINEL then B + {f.value} else B
  {
    B', visited', info' := B, visited, info;
    if f.None? || f.value.1 in visited {
      return;
    }
    var c := f.value;
    PushStep(s.adj, K, src, tgt, A, B, visited, c.0, c.1);
    if c.0 < SENTINEL {
      SourcedPush(s, K, tgt, A, B, info, c, t);
      B' := B + {c};
      info' := info[c.1 := t];
    }
    visited' := visited + {c.1};
  }

  /** A candidate that leaves every accepted path sharing its root by
      another hop leaves the last accepted path at index `i`. */
  lemma LastLeaves(A: seq<PathResult>, prev: seq<int>, i: int, total: seq<int>)
    requires |A| >= 1 && prev == A[|A| - 1].path && 0 <= i < |prev| - 1
    requires |total| > i && total[..i + 1] == prev[..i + 1]
    requires forall j :: 0 <= j < |A| && SharesRoot(A[j].path, prev[..i + 1]) && |A[j].path| > i + 1
               ==> |total| > i + 1 && total[i + 1] != A[j].path[i + 1]
    ensures Leaves(prev, i, total)
  {
    assert SharesRoot(A[|A| - 1].path, prev[..i + 1]);
  }

  /** A successful spur round at index `i` of the last accepted path yields
      a candidate with Yen's cost decomposition. */
  lemma SpurFound(s: Store, K: set<int>, tgt: int, A: seq<PathResult>, prev: seq<int>, i: int,
                  total: seq<int>, cost: real, spurCost: real)
    requires |A| >= 1 && prev == A[|A| - 1].path && 0 <= i < |prev| - 1
    requires |total| > i && total[..i + 1] == prev[..i + 1]
    requires cost == RootCostOf(s.adj, prev, i) + spurCost
    requires SpurPath(Pruned(s, A, prev, i), K, prev[i], tgt, total[i..], spurCost)
    ensures SpurOf(s, K, tgt, A, (cost, total), (|A|, i, spurCost))
  {
    RootCostPrefix(s.adj, total, prev, i);
    SpurAtRoot(s, K, tgt, A, prev, i, total, spurCost);
  }

  /** The spur path found from the last accepted path, restated over the
      candidate's own node at index `i`. */
  lemma SpurAtRoot(s: Store, K: set<int>, tgt: int, A: seq<PathResult>, prev: seq<int>, i: int,
                   total: seq<int>, spurCost: real)
    requires |A| >= 1 && prev == A[|A| - 1].path && 0 <= i < |prev| - 1
    requires |total| > i && total[..i + 1] == prev[..i + 1]
    requires SpurPath(Pruned(s, A, prev, i), K, prev[i], tgt, total[i..], spurCost)
    ensures SpurPath(Pruned(s, A[..|A|], A[|A| - 1].path, i), K, total[i], tgt, total[i..], spurCost)
  {
    assert A[..|A|] == A;
    assert total[i] == total[..i + 1][i];
  }

  /** Queueing a candidate under a new node sequence, with where it came
      from, keeps every queued candidate's record. */
  lemma SourcedPush(s: Store, K: set<int>, tgt: int, A: seq<PathResult>, B: set<(real, seq<int>)>,
                    info: map<seq<int>, SpurInfo>, c: (real, seq<int>), t: SpurInfo)
    requires Sourced(s, K, tgt, A, B, info) && SpurOf(s, K, tgt, A, c, t)
    requires forall d :: d in B ==> d.1 != c.1
    ensures Sourced(s, K, tgt, A, B + {c}, info[c.1 := t])
  {
  }

  /** Recording a new candidate as seen, and queueing it when below the
      sentinel, keeps the queue invariant. */
  lemma PushStep(adj: map<int, seq<Edge>>, K: set<int>, src: int, tgt: int, A: seq<PathResult>,
                 B: set<(real, seq<int>)>, visited: set<seq<int>>, cost: real, total: seq<int>)
    requires PendingOk(adj, K, src, tgt, A, B, visited) && total !in visited
    requires PathIn(adj, K, src, tgt, total) && Distinct(total)
    requires forall j :: 0 <= j < |A| ==> A[j].path != total
    ensures PendingOk(adj, K, src, tgt, A, B, visited + {total})
    ensures cost < SENTINEL ==> PendingOk(adj, K, src, tgt, A, B + {(cost, total)}, visited + {total})
  {
  }

  /** Moving a least candidate from the queue to the accepted paths keeps
      both invariants. */
  lemma AcceptStep(adj: map<int, seq<Edge>>, K: set<int>, src: int, tgt: int, A: seq<PathResult>,
                   B: set<(real, seq<int>)>, visited: set<seq<int>>, c: (real, seq<int>))
    requires AcceptedOk(adj, K, src, tgt, A) && |A| >= 1 && PendingOk(adj, K, src, tgt, A, B, visited) && c in B
    ensures AcceptedOk(adj, K, src, tgt, A + [PathResult(c.1, c.0)])
    ensures PendingOk(adj, K, src, tgt, A + [PathResult(c.1, c.0)], B - {c}, visited)
  {
    var A' := A + [PathResult(c.1, c.0)];
    forall d, j | d in B - {c} && 0 <= j < |A'|
      ensures A'[j].path != d.1
    {
      if j < |A| {
        assert A'[j] == A[j];
      }
    }
    forall j, l | 0 <= j < l < |A'|
      ensures A'[j].path != A'[l].path
    {
      if l < |A| {
        assert A'[j] == A[j] && A'[l] == A[l];
      } else {
        assert A'[j] == A[j];
      }
    }
  }

  /** A candidate's origin stays valid when more answers are accepted. */
  lemma SpurOfGrow(s: Store, K: set<int>, tgt: int, A: seq<PathResult>, r: PathResult,
                   c: (real, seq<int>), t: SpurInfo)
    requires SpurOf(s, K, tgt, A, c, t)
    ensures SpurOf(s, K, tgt, A + [r], c, t)
  {
    assert (A + [r])[..t.0] == A[..t.0] && (A + [r])[t.0 - 1] == A[t.0 - 1];
  }

  /** Accepting a least queued candidate keeps the origin records and the
      decomposition of every accepted answer. */
  lemma AcceptSpurs(s: Store, K: set<int>, tgt: int, A: seq<PathResult>, B: set<(real, seq<int>)>,
                    info: map<seq<int>, SpurInfo>, spurs: seq<SpurInfo>, c: (real, seq<int>))
    requires |A| >= 1 && Sourced(s, K, tgt, A, B, info) && c in B
    requires SpursOk(s, K, tgt, A, spurs)
    ensures Sourced(s, K, tgt, A + [PathResult(c.1, c.0)], B - {c}, info)
    ensures SpursOk(s, K, tgt, A + [PathResult(c.1, c.0)], spurs + [info[c.1]])
  {
    var r := PathResult(c.1, c.0);
    var A' := A + [r];
    forall d | d in B - {c}
      ensures d.1 in info && SpurOf(s, K, tgt, A', d, info[d.1])
    {
      SpurOfGrow(s, K, tgt, A, r, d, info[d.1]);
    }
    var spurs' := spurs + [info[c.1]];
    forall j | 1 <= j < |A'|
      ensures spurs'[j].0 <= j && SpurOf(s, K, tgt, A', Cand(A'[j]), spurs'[j])
    {
      if j < |A| {
        assert A'[j] == A[j] && spurs'[j] == spurs[j];
        SpurOfGrow(s, K, tgt, A, r, Cand(A[j]), spurs[j]);
      } else {
        assert Cand(A'[j]) == c;
        SpurOfGrow(s, K, tgt, A, r, c, info[c.1]);
      }
    }
  }

  /** One pass of the outer loop as it ran: the answers accepted before it,
      the queue and seen set it started from, what each spur index gave,
      and the queue after the spur rounds. */
  datatype RoundLog = RoundLog(accepted: seq<PathResult>, queued: set<(real, seq<int>)>, seen: set<seq<int>>,
                               found: seq<Option<(real, seq<int>)>>, pool: set<(real, seq<int>)>)

  /** A pass: one spur result per index of the last accepted path but its
      end, and the pool is the starting queue plus what the spur rounds
      queued. */
  ghost predicate RoundLogOk(s: Store, K: set<int>, tgt: int, log: RoundLog)
  {
    |log.accepted| >= 1 && |log.found| == |log.accepted[|log.accepted| - 1].path| - 1
    && SpursFound(s, K, tgt, log.accepted, log.found)
    && log.pool == log.queued + QueuedBy(log.found, log.seen)
  }

  /** The pass after `log`, once `a` was popped: it starts from the pool
      without `a` and from the seen set plus what `log` found. */
  predicate Follows(log: RoundLog, next: RoundLog, a: PathResult)
  {
    next.queued == log.pool - {Cand(a)} && next.seen == log.seen + SeenBy(log.found)
  }

  /** `c` is a least entry of `pool`. */
  predicate LeastIn(c: (real, seq<int>), pool: set<(real, seq<int>)>)
  {
    c in pool && forall d :: d in pool ==> CandLe(c, d)
  }

  /** Every recorded pass is a pass, pass by pass. */
  ghost predicate RoundsOk(s: Store, K: set<int>, tgt: int, logs: seq<RoundLog>)
    decreases |logs|
  {
    |logs| == 0 || (RoundsOk(s, K, tgt, logs[..|logs| - 1]) && RoundLogOk(s, K, tgt, logs[|logs| - 1]))
  }

  /** Pass `r` of the record is a pass. */
  lemma {:induction false} RoundsOkAt(s: Store, K: set<int>, tgt: int, logs: seq<RoundLog>, r: int)
    requires RoundsOk(s, K, tgt, logs) && 0 <= r < |logs|
    ensures RoundLogOk(s, K, tgt, logs[r])
    decreases |logs|
  {
    if r < |logs| - 1 {
      var init := logs[..|logs| - 1];
      RoundsOkAt(s, K, tgt, init, r);
      assert init[r] == logs[r];
    }
  }

  /** The passes run so far, in order: pass `r` ran with the first `r + 1`
      answers; the first started from an empty queue and seen set, every
      later one from what the previous pass left; and answer `r + 1` is a
      least entry of pass `r`'s pool. */
  ghost predicate LogsOk(s: Store, K: set<int>, tgt: int, A: seq<PathResult>, logs: seq<RoundLog>)
  {
    RoundsOk(s, K, tgt, logs) && LogsChain(A, logs)
  }

  /** How the recorded passes hang together with the answers. */
  predicate LogsChain(A: seq<PathResult>, logs: seq<RoundLog>)
  {
    |logs| <= |A|
    && (forall r :: 0 <= r < |logs| ==> logs[r].accepted == A[..r + 1])
    && (|logs| > 0 ==> logs[0].queued == {} && logs[0].seen == {})
    && (forall r :: 0 <= r < |logs| - 1 ==> Follows(logs[r], logs[r + 1], A[r + 1]))
    && (forall r :: 0 <= r < |logs| && r + 1 < |A| ==> LeastIn(Cand(A[r + 1]), logs[r].pool))
  }

  /** The queue and seen set the next pass starts from are what the recorded
      passes left. */
  predicate Threaded(A: seq<PathResult>, logs: seq<RoundLog>, B: set<(real, seq<int>)>, visited: set<seq<int>>)
  {
    |A| >= 1 && |logs| == |A| - 1
    && (|logs| == 0 ==> B == {} && visited == {})
    && (|logs| > 0 ==> Follows(logs[|logs| - 1], RoundLog(A, B, visited, [], {}), A[|A| - 1]))
  }

  lemma RoundsSnoc(s: Store, K: set<int>, tgt: int, logs: seq<RoundLog>, log: RoundLog)
    requires RoundsOk(s, K, tgt, logs) && RoundLogOk(s, K, tgt, log)
    ensures RoundsOk(s, K, tgt, logs + [log])
  {
    assert (logs + [log])[..|logs|] == logs;
  }

  /** A pass that pops a least entry of its pool extends the record. */
  lemma ChainStep(A: seq<PathResult>, logs: seq<RoundLog>, B: set<(real, seq<int>)>, visited: set<seq<int>>,
                  log: RoundLog, c: (real, seq<int>))
    requires LogsChain(A, logs) && Threaded(A, logs, B, visited)
    requires log == RoundLog(A, B, visited, log.found, log.pool) && LeastIn(c, log.pool)
    ensures LogsChain(A + [PathResult(c.1, c.0)], logs + [log])
    ensures Threaded(A + [PathResult(c.1, c.0)], logs + [log], log.pool - {c}, visited + SeenBy(log.found))
  {
    var A' := A + [PathResult(c.1, c.0)];
    var logs' := logs + [log];
    assert Cand(A'[|A|]) == c;
    forall r | 0 <= r < |logs'|
      ensures logs'[r].accepted == A'[..r + 1]
    {
      if r < |logs| {
        assert A'[..r + 1] == A[..r + 1];
      } else {
        assert A'[..r + 1] == A;
      }
    }
    forall r | 0 <= r < |logs'| - 1
      ensures Follows(logs'[r], logs'[r + 1], A'[r + 1])
    {
      assert logs'[r] == logs[r] && A'[r + 1] == A[r + 1];
    }
    forall r | 0 <= r < |logs'| && r + 1 < |A'|
      ensures LeastIn(Cand(A'[r + 1]), logs'[r].pool)
    {
      if r < |logs| {
        assert logs'[r] == logs[r] && A'[r + 1] == A[r + 1];
      }
    }
  }

  /** A pass whose pool is empty closes the record. */
  lemma ChainStop(A: seq<PathResult>, logs: seq<RoundLog>, B: set<(real, seq<int>)>, visited: set<seq<int>>,
                  log: RoundLog)
    requires LogsChain(A, logs) && Threaded(A, logs, B, visited)
    requires log == RoundLog(A, B, visited, log.found, log.pool)
    ensures LogsChain(A, logs + [log])
  {
    var logs' := logs + [log];
    assert A[..|A|] == A;
    forall r | 0 <= r < |logs'| - 1
      ensures Follows(logs'[r], logs'[r + 1], A[r + 1])
    {
      assert logs'[r] == logs[r];
    }
  }

  /** `yen_k_shortest_paths(g, src, tgt, k)`. `g` is only read: every
      pruning happens on fresh copies. `spurs[j]` says which spur round
      produced answer `j`, and `logs[r]` records pass `r` of the outer loop:
      what each of its spur searches gave and the queue it popped from. The
      loop stops short of `k` paths only after a pass whose queue was
      empty. */
  method KShortest(g: Phase2Graph.Graph, src: int, tgt: int, k: int)
    returns (A: seq<PathResult>, ghost w0: seq<Hop>, ghost spurs: seq<SpurInfo>, ghost logs: seq<RoundLog>)
    requires Phase1Algorithms.CostsOk(g.adj, false)
    ensures A == [] <==> src !in g.nodes || tgt !in g.nodes || NoRoute(LengthView(g.adj), g.nodes.Keys, src, tgt)
    ensures |A| <= if k < 1 then 1 else k
    ensures |A| > 0 ==>
              Route(LengthView(g.adj), g.nodes.Keys, src, tgt, w0) && Nodes(LengthView(g.adj), src, w0) == A[0].path
              && Arrive(LengthView(g.adj), src, w0, 0.0) == A[0].length
              && Shortest(LengthView(g.adj), g.nodes.Keys, src, tgt, A[0].length)
    ensures AcceptedOk(g.adj, g.nodes.Keys, src, tgt, A)
    ensures SpursOk(g.State(), g.nodes.Keys, tgt, A, spurs) && LogsOk(g.State(), g.nodes.Keys, tgt, A, logs)
    ensures |A| > 0 ==> |logs| == if |A| < (if k < 1 then 1 else k) then |A| else |A| - 1
    ensures 0 < |A| < (if k < 1 then 1 else k) ==> logs[|A| - 1].pool == {}
  {
    var first: Phase1Algorithms.SPResult;
    first, w0 := Dijkstra(g.nodes, g.adj, src, tgt);
    spurs, logs := [], [];
    if !first.possible {
      return [], w0, spurs, logs;
    }
    RouteLinked(g.adj, g.nodes.Keys, src, tgt, w0);
    A, spurs, logs := MorePaths(g.nodes, g.State(), PathResult(first.path, first.cost), src, tgt, k);
  }

  /** The state the outer loop of `yen_k_shortest_paths` keeps: the accepted
      paths, the queue and the seen set, with where each answer and each
      queued candidate came from. */
  ghost predicate RoundOk(nodes: map<int, Node>, st: Store, src: int, tgt: int, A: seq<PathResult>,
                          B: set<(real, seq<int>)>, visited: set<seq<int>>, info: map<seq<int>, SpurInfo>,
                          spurs: seq<SpurInfo>)
  {
    |A| >= 1 && AcceptedOk(st.adj, nodes.Keys, src, tgt, A)
    && PendingOk(st.adj, nodes.Keys, src, tgt, A, B, visited)
    && Sourced(st, nodes.Keys, tgt, A, B, info)
    && SpursOk(st, nodes.Keys, tgt, A, spurs)
  }

  /** One pass of the outer loop: the spur rounds, then the least candidate
      moved to the answer. The pass is recorded as the new last entry of
      `logs'`; `done` holds exactly when the queue after the spur rounds is
      empty. */
  method YenRound(nodes: map<int, Node>, st: Store, ghost src: int, tgt: int, A: seq<PathResult>,
                  B: set<(real, seq<int>)>, visited: set<seq<int>>, ghost info: map<seq<int>, SpurInfo>,
                  ghost spurs: seq<SpurInfo>, ghost logs: seq<RoundLog>)
    returns (done: bool, A': seq<PathResult>, B': set<(real, seq<int>)>, visited': set<seq<int>>,
             ghost info': map<seq<int>, SpurInfo>, ghost spurs': seq<SpurInfo>, ghost logs': seq<RoundLog>)
    requires Phase1Algorithms.CostsOk(st.adj, false)
    requires RoundOk(nodes, st, src, tgt, A, B, visited, info, spurs)
    requires LogsOk(st, nodes.Keys, tgt, A, logs) && Threaded(A, logs, B, visited)
    ensures RoundOk(nodes, st, src, tgt, A', B', visited', info', spurs')
    ensures LogsOk(st, nodes.Keys, tgt, A', logs') && |logs'| == |logs| + 1 && logs'[..|logs|] == logs
    ensures logs'[|logs|].queued == B && logs'[|logs|].seen == visited
    ensures done <==> logs'[|logs|].pool == {}
    ensures done ==> A' == A
    ensures !done ==> |A'| == |A| + 1 && A'[..|A|] == A && Threaded(A', logs', B', visited')
  {
    ghost var found;
    B', visited', info', found := SpurRounds(nodes, st, A, B, visited, info, src, tgt);
    ghost var log := RoundLog(A, B, visited, found, B');
    logs' := logs + [log];
    assert logs'[..|logs|] == logs;
    if B' == {} {
      RoundsSnoc(st, nodes.Keys, tgt, logs, log);
      ChainStop(A, logs, B, visited, log);
      return true, A, B', visited', info', spurs, logs';
    }
    var c := PopCandidate(B');
    AcceptStep(st.adj, nodes.Keys, src, tgt, A, B', visited', c);
    AcceptSpurs(st, nodes.Keys, tgt, A, B', info', spurs, c);
    RoundsSnoc(st, nodes.Keys, tgt, logs, log);
    ChainStep(A, logs, B, visited, log, c);
    spurs' := spurs + [info'[c.1]];
    A' := A + [PathResult(c.1, c.0)];
    assert A'[..|A|] == A;
    B' := B' - {c};
    done := false;
  }

  /** What holds between passes of the outer loop: `kIdx` answers accepted,
      the first one kept, the state and the record valid, and a stop only on
      an empty queue short of `k`. */
  ghost predicate MoreOk(nodes: map<int, Node>, st: Store, src: int, tgt: int, first: PathResult,
                         A: seq<PathResult>, B: set<(real, seq<int>)>, visited: set<seq<int>>,
                         info: map<seq<int>, SpurInfo>, spurs: seq<SpurInfo>, logs: seq<RoundLog>,
                         kIdx: int, k: int, done: bool)
  {
    1 <= kIdx == |A| && kIdx <= (if k < 1 then 1 else k) && A[0] == first
    && RoundOk(nodes, st, src, tgt, A, B, visited, info, spurs) && LogsOk(st, nodes.Keys, tgt, A, logs)
    && (!done ==> Threaded(A, logs, B, visited))
    && (done ==> |logs| == |A| && logs[|A| - 1].pool == {} && kIdx < k)
  }

  /** Before the first pass: one answer, an empty queue and seen set, and no
      recorded pass. */
  lemma StartOk(nodes: map<int, Node>, st: Store, src: int, tgt: int, first: PathResult, k: int)
    requires AcceptedOk(st.adj, nodes.Keys, src, tgt, [first])
    ensures MoreOk(nodes, st, src, tgt, first, [first], {}, {}, map[], [(0, 0, 0.0)], [], 1, k, false)
  {
  }

  /** One pass of the outer loop, counted in `kIdx` when it accepts a path. */
  method Pass(nodes: map<int, Node>, st: Store, ghost src: int, tgt: int, ghost first: PathResult,
              A: seq<PathResult>, B: set<(real, seq<int>)>, visited: set<seq<int>>,
              ghost info: map<seq<int>, SpurInfo>, ghost spurs: seq<SpurInfo>, ghost logs: seq<RoundLog>,
              kIdx: int, k: int)
    returns (done: bool, A': seq<PathResult>, B': set<(real, seq<int>)>, visited': set<seq<int>>,
             ghost info': map<seq<int>, SpurInfo>, ghost spurs': seq<SpurInfo>, ghost logs': seq<RoundLog>,
             kIdx': int)
    requires Phase1Algorithms.CostsOk(st.adj, false) && kIdx < k
    requires MoreOk(nodes, st, src, tgt, first, A, B, visited, info, spurs, logs, kIdx, k, false)
    ensures kIdx' == if done then kIdx else kIdx + 1
    ensures MoreOk(nodes, st, src, tgt, first, A', B', visited', info', spurs', logs', kIdx', k, done)
  {
    done, A', B', visited', info', spurs', logs' := YenRound(nodes, st, src, tgt, A, B, visited, info, spurs, logs);
    kIdx' := kIdx;
    if !done {
      assert A'[0] == A[0] by {
        assert A'[..|A|][0] == A'[0];
      }
      kIdx' := kIdx + 1;
    }
  }

  /** Leaving the outer loop: at most `max(k, 1)` answers, one pass
      recorded per answer after the first, and one more, with an empty
      queue, when the loop stopped short. */
  lemma MoreExit(nodes: map<int, Node>, st: Store, src: int, tgt: int, first: PathResult,
                 A: seq<PathResult>, B: set<(real, seq<int>)>, visited: set<seq<int>>,
                 info: map<seq<int>, SpurInfo>, spurs: seq<SpurInfo>, logs: seq<RoundLog>,
                 kIdx: int, k: int, done: bool)
    requires MoreOk(nodes, st, src, tgt, first, A, B, visited, info, spurs, logs, kIdx, k, done)
    requires !(kIdx < k && !done)
    ensures 1 <= |A| <= (if k < 1 then 1 else k) && A[0] == first
    ensures AcceptedOk(st.adj, nodes.Keys, src, tgt, A)
    ensures SpursOk(st, nodes.Keys, tgt, A, spurs) && LogsOk(st, nodes.Keys, tgt, A, logs)
    ensures |logs| == if |A| < (if k < 1 then 1 else k) then |A| else |A| - 1
    ensures |A| < (if k < 1 then 1 else k) ==> logs[|A| - 1].pool == {}
  {
  }

  /** The outer loop of `yen_k_shortest_paths`, from the shortest path on:
      passes until `k` paths are accepted or a pass's queue is empty. */
  method MorePaths(nodes: map<int, Node>, st: Store, first: PathResult, ghost src: int, tgt: int, k: int)
    returns (A: seq<PathResult>, ghost spurs: seq<SpurInfo>, ghost logs: seq<RoundLog>)
    requires Phase1Algorithms.CostsOk(st.adj, false)
    requires AcceptedOk(st.adj, nodes.Keys, src, tgt, [first])
    ensures 1 <= |A| <= (if k < 1 then 1 else k) && A[0] == first
    ensures AcceptedOk(st.adj, nodes.Keys, src, tgt, A)
    ensures SpursOk(st, nodes.Keys, tgt, A, spurs) && LogsOk(st, nodes.Keys, tgt, A, logs)
    ensures |logs| == if |A| < (if k < 1 then 1 else k) then |A| else |A| - 1
    ensures |A| < (if k < 1 then 1 else k) ==> logs[|A| - 1].pool == {}
  {
    A := [first];
    spurs, logs := [(0, 0, 0.0)], [];
    var B: set<(real, seq<int>)> := {};
    var visited: set<seq<int>> := {};
    ghost var info: map<seq<int>, SpurInfo> := map[];
    var kIdx := 1;
    var done := false;
    StartOk(nodes, st, src, tgt, first, k);
    while kIdx < k && !done
      invariant MoreOk(nodes, st, src, tgt, first, A, B, visited, info, spurs, logs, kIdx, k, done)
      decreases k - kIdx, if done then 0 else 1
    {
      done, A, B, visited, info, spurs, logs, kIdx := Pass(nodes, st, src, tgt, first, A, B, visited, info, spurs, logs, kIdx, k);
    }
    MoreExit(nodes, st, src, tgt, first, A, B, visited, info, spurs, logs, kIdx, k, done);
  }

}
