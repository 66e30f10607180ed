// The heuristic k-paths of the Phase-2 k-shortest file: repeated shortest
// searches on copies of the graph whose edges are lengthened by how often
// earlier answers used them, keeping an answer only when it overlaps every
// kept one by at most the threshold and is not a repeat.
module Heuristic {
  import opened Common
  import opened Walks
  import opened EdgeStore
  import Phase1Algorithms
  import opened Phase2Algorithms
  import Phase2Graph
  import opened Overlap
  import opened Yen

  /** `edge_usage`: how often each edge id was charged. */
  type Usage = map<int, nat>

  /** `edge_usage[id]`, 0 for an id never charged. */
  function Use(usage: Usage, id: int): nat
  {
    if id in usage then usage[id] else 0
  }

  /** Hop `q` of `p` charges edge `id`: the first entry of `adj[p[q]]`
      leading to `p[q + 1]` has that id. */
  predicate Hits(adj: map<int, seq<Edge>>, p: seq<int>, q: int, id: int)
    requires 0 <= q < |p| - 1
  {
    var e := FirstMatch(AdjAt(adj, p[q]), p[q + 1]);
    e.Some? && e.value.id == id
  }

  /** The usage after the first `n` hops of `p` are charged `amt` each. */
  function Charged(usage: Usage, adj: map<int, seq<Edge>>, p: seq<int>, n: int, amt: nat): Usage
    requires 0 <= n && (n == 0 || n < |p|)
    decreases n
  {
    if n == 0 then usage
    else
      var u := Charged(usage, adj, p, n - 1, amt);
      var e := FirstMatch(AdjAt(adj, p[n - 1]), p[n]);
      if e.Some? then u[e.value.id := Use(u, e.value.id) + amt] else u
  }

  /** Every hop of `p` charged. */
  function ChargedPath(usage: Usage, adj: map<int, seq<Edge>>, p: seq<int>, amt: nat): Usage
  {
    if |p| <= 1 then usage else Charged(usage, adj, p, |p| - 1, amt)
  }

  /** Charging only raises counts and never forgets an edge. */
  lemma {:induction false} ChargedGrows(usage: Usage, adj: map<int, seq<Edge>>, p: seq<int>, n: int, amt: nat)
    requires 0 <= n && (n == 0 || n < |p|)
    ensures forall id :: Use(Charged(usage, adj, p, n, amt), id) >= Use(usage, id)
    ensures forall id :: id in usage ==> id in Charged(usage, adj, p, n, amt)
    decreases n
  {
    if n > 0 {
      ChargedGrows(usage, adj, p, n - 1, amt);
      var u := Charged(usage, adj, p, n - 1, amt);
      var r := Charged(usage, adj, p, n, amt);
      forall id
        ensures Use(r, id) >= Use(u, id) && (id in u ==> id in r)
      {
      }
    }
  }

  /** Each hop's edge gains at least `amt`. */
  lemma {:induction false} ChargedHits(usage: Usage, adj: map<int, seq<Edge>>, p: seq<int>, n: int, amt: nat)
    requires 0 <= n && (n == 0 || n < |p|)
    ensures forall q, id :: 0 <= q < n && Hits(adj, p, q, id)
              ==> Use(Charged(usage, adj, p, n, amt), id) >= Use(usage, id) + amt
    decreases n
  {
    if n > 0 {
      ChargedHits(usage, adj, p, n - 1, amt);
      var u := Charged(usage, adj, p, n - 1, amt);
      var r := Charged(usage, adj, p, n, amt);
      ChargedGrows(usage, adj, p, n - 1, amt);
      forall q, id | 0 <= q < n && Hits(adj, p, q, id)
        ensures Use(r, id) >= Use(usage, id) + amt
      {
        assert Use(r, id) >= Use(u, id);
        if q == n - 1 {
          assert Use(r, id) == Use(u, id) + amt;
        }
      }
    }
  }

  /** An edge no hop charges keeps its count and its presence. */
  lemma {:induction false} ChargedMisses(usage: Usage, adj: map<int, seq<Edge>>, p: seq<int>, n: int, amt: nat, id: int)
    requires 0 <= n && (n == 0 || n < |p|)
    requires forall q :: 0 <= q < n ==> !Hits(adj, p, q, id)
    ensures id in Charged(usage, adj, p, n, amt) <==> id in usage
    ensures Use(Charged(usage, adj, p, n, amt), id) == Use(usage, id)
    decreases n
  {
    if n > 0 {
      ChargedMisses(usage, adj, p, n - 1, amt, id);
      assert !Hits(adj, p, n - 1, id);
    }
  }

  /** The hop loop that charges a path, scanning for each hop's first entry
      in the graph's own adjacency. */
  method ChargePath(usage: Usage, adj: map<int, seq<Edge>>, p: seq<int>, amt: nat) returns (r: Usage)
    ensures r == ChargedPath(usage, adj, p, amt)
  {
    r := usage;
    var i := 0;
    while i + 1 < |p|
      invariant 0 <= i && (i == 0 || i < |p|)
      invariant r == Charged(usage, adj, p, i, amt)
    {
      var e := FirstEntry(adj, p[i], p[i + 1]);
      ChargedNext(usage, adj, p, i, amt, r, e);
      if e.Some? {
        r := r[e.value.id := Use(r, e.value.id) + amt];
      }
      i := i + 1;
    }
  }

  /** Charging one more hop. */
  lemma ChargedNext(usage: Usage, adj: map<int, seq<Edge>>, p: seq<int>, i: int, amt: nat, r: Usage, e: Option<Edge>)
    requires 0 <= i && i + 1 < |p| && r == Charged(usage, adj, p, i, amt)
    requires e == FirstMatch(AdjAt(adj, p[i]), p[i + 1])
    ensures Charged(usage, adj, p, i + 1, amt) == if e.Some? then r[e.value.id := Use(r, e.value.id) + amt] else r
  {
  }

  /** `1.0 + 0.3 * edge_usage[id]`. */
  function Factor(usage: Usage, id: int): real
  {
    1.0 + 0.3 * (Use(usage, id) as real)
  }

  function Pow(f: real, c: nat): real
  {
    if c == 0 then 1.0 else Pow(f, c - 1) * f
  }

  lemma {:induction false} PowAtLeastOne(f: real, c: nat)
    requires f >= 1.0
    ensures Pow(f, c) >= 1.0
  {
    if c > 0 {
      PowAtLeastOne(f, c - 1);
    }
  }

  function Scale(e: Edge, f: real): Edge
  {
    e.(length := e.length * f)
  }

  /** Each entry of the vector with edge id `id` scaled by `f`. */
  function ScaleId(vec: seq<Edge>, id: int, f: real): (r: seq<Edge>)
    ensures |r| == |vec|
  {
    seq(|vec|, k requires 0 <= k < |vec| => if vec[k].id == id then Scale(vec[k], f) else vec[k])
  }

  /** How often a scan over the ids in `done` has scaled an entry of
      `adj[n]` with id `x`: once for the edge's tail vector and once more for
      its head vector when it is two-way. */
  function Times(index: map<int, Edge>, usage: Usage, done: set<int>, n: int, x: int): nat
  {
    if x in done && x in usage && x in index then
      (if index[x].u == n then 1 else 0) + (if !index[x].oneway && index[x].v == n then 1 else 0)
    else 0
  }

  /** The vectors `mod.adj[...]` has created by then (`operator[]` inserts
      an empty one for an endpoint without a vector). */
  function Touched(index: map<int, Edge>, usage: Usage, done: set<int>): set<int>
  {
    (set x | x in done && x in usage && x in index :: index[x].u)
    + (set x | x in done && x in usage && x in index && !index[x].oneway :: index[x].v)
  }

  function ScaledVec(vec: seq<Edge>, index: map<int, Edge>, usage: Usage, done: set<int>, n: int): (r: seq<Edge>)
    ensures |r| == |vec|
  {
    seq(|vec|, k requires 0 <= k < |vec| =>
      Scale(vec[k], Pow(Factor(usage, vec[k].id), Times(index, usage, done, n, vec[k].id))))
  }

  /** The adjacency of the copy after the scan has handled the ids in `done`. */
  function PenalizedWith(adj: map<int, seq<Edge>>, index: map<int, Edge>, usage: Usage, done: set<int>): map<int, seq<Edge>>
  {
    map n | n in adj.Keys + Touched(index, usage, done) :: ScaledVec(AdjAt(adj, n), index, usage, done, n)
  }

  /** The penalised adjacency a heuristic round searches. */
  function Penalized(adj: map<int, seq<Edge>>, index: map<int, Edge>, usage: Usage): map<int, seq<Edge>>
  {
    PenalizedWith(adj, index, usage, index.Keys)
  }

  /** An entry of the penalised adjacency at a node is the entry at the same
      place in the graph, lengthened by a factor of at least one. */
  lemma PenalizedAt(adj: map<int, seq<Edge>>, index: map<int, Edge>, usage: Usage, done: set<int>, n: int, k: int)
    requires 0 <= k < |AdjAt(adj, n)|
    ensures var P := PenalizedWith(adj, index, usage, done);
            var e := AdjAt(adj, n)[k];
            |AdjAt(P, n)| == |AdjAt(adj, n)|
            && AdjAt(P, n)[k] == Scale(e, Pow(Factor(usage, e.id), Times(index, usage, done, n, e.id)))
  {
  }

  lemma PenalizedLen(adj: map<int, seq<Edge>>, index: map<int, Edge>, usage: Usage, done: set<int>, n: int)
    ensures |AdjAt(PenalizedWith(adj, index, usage, done), n)| == |AdjAt(adj, n)|
  {
  }

  lemma MulAssoc(a: real, b: real, c: real)
    ensures (a * b) * c == a * (b * c)
  {
  }

  /** One id of the scan: a used edge's entries in its tail vector, and for
      a two-way edge in its head vector too, are scaled by its factor. */
  function PenaltyStep(m: map<int, seq<Edge>>, e: Edge, f: real): map<int, seq<Edge>>
  {
    var m1 := m[e.u := ScaleId(AdjAt(m, e.u), e.id, f)];
    if e.oneway then m1 else m1[e.v := ScaleId(AdjAt(m1, e.v), e.id, f)]
  }

  /** The scan over `done + {id}` is the scan over `done` followed by the
      step for `id`. */
  lemma PenaltyStepOk(adj: map<int, seq<Edge>>, index: map<int, Edge>, usage: Usage, done: set<int>, id: int)
    requires id in index && index[id].id == id && id !in done
    ensures PenalizedWith(adj, index, usage, done + {id})
            == if id in usage then PenaltyStep(PenalizedWith(adj, index, usage, done), index[id], Factor(usage, id))
               else PenalizedWith(adj, index, usage, done)
  {
    if id !in usage {
      PenaltySkip(adj, index, usage, done, id);
    } else {
      PenaltyScale(adj, index, usage, done, id);
    }
  }

  lemma PenaltySkip(adj: map<int, seq<Edge>>, index: map<int, Edge>, usage: Usage, done: set<int>, id: int)
    requires id in index && id !in usage
    ensures PenalizedWith(adj, index, usage, done + {id}) == PenalizedWith(adj, index, usage, done)
  {
    var P := PenalizedWith(adj, index, usage, done);
    var P' := PenalizedWith(adj, index, usage, done + {id});
    TouchedStep(index, usage, done, id);
    forall n | n in P'
      ensures P'[n] == P[n]
    {
      var vec := AdjAt(adj, n);
      assert forall k :: 0 <= k < |vec| ==> Times(index, usage, done + {id}, n, vec[k].id) == Times(index, usage, done, n, vec[k].id);
    }
    MapsEqual(P', P);
  }

  lemma PenaltyScale(adj: map<int, seq<Edge>>, index: map<int, Edge>, usage: Usage, done: set<int>, id: int)
    requires id in index && index[id].id == id && id !in done && id in usage
    ensures PenalizedWith(adj, index, usage, done + {id})
            == PenaltyStep(PenalizedWith(adj, index, usage, done), index[id], Factor(usage, id))
  {
    var P := PenalizedWith(adj, index, usage, done);
    var P' := PenalizedWith(adj, index, usage, done + {id});
    var S := PenaltyStep(P, index[id], Factor(usage, id));
    ScaleKeys(adj, index, usage, done, id);
    forall n | n in P'
      ensures P'[n] == S[n]
    {
      PenaltyNode(adj, index, usage, done, id, n);
    }
    MapsEqual(P', S);
  }

  lemma ScaleKeys(adj: map<int, seq<Edge>>, index: map<int, Edge>, usage: Usage, done: set<int>, id: int)
    requires id in index && id in usage
    ensures PenalizedWith(adj, index, usage, done + {id}).Keys
            == PenaltyStep(PenalizedWith(adj, index, usage, done), index[id], Factor(usage, id)).Keys
  {
    TouchedStep(index, usage, done, id);
  }

  lemma PenaltyNode(adj: map<int, seq<Edge>>, index: map<int, Edge>, usage: Usage, done: set<int>, id: int, n: int)
    requires id in index && index[id].id == id && id !in done && id in usage
    ensures var S := PenaltyStep(PenalizedWith(adj, index, usage, done), index[id], Factor(usage, id));
            AdjAt(PenalizedWith(adj, index, usage, done + {id}), n) == AdjAt(S, n)
  {
    var P := PenalizedWith(adj, index, usage, done);
    var P' := PenalizedWith(adj, index, usage, done + {id});
    var S := PenaltyStep(P, index[id], Factor(usage, id));
    var vec := AdjAt(adj, n);
    PenalizedLen(adj, index, usage, done + {id}, n);
    forall k | 0 <= k < |vec|
      ensures AdjAt(P', n)[k] == AdjAt(S, n)[k]
    {
      StepEntry(adj, index, usage, done, id, n, k);
    }
    if |vec| == 0 {
      PenalizedLen(adj, index, usage, done, n);
      assert |AdjAt(P, n)| == 0;
      StepLen(P, index[id], Factor(usage, id), n);
    } else {
      StepEntry(adj, index, usage, done, id, n, 0);
    }
  }

  lemma StepLen(m: map<int, seq<Edge>>, e: Edge, f: real, n: int)
    ensures |AdjAt(PenaltyStep(m, e, f), n)| == |AdjAt(m, n)|
  {
    var m1 := m[e.u := ScaleId(AdjAt(m, e.u), e.id, f)];
    assert |AdjAt(m1, n)| == |AdjAt(m, n)|;
  }

  /** Scaling twice multiplies the factors. */
  lemma ScaleAgain(a: Edge, f: real, c: nat)
    ensures Scale(Scale(a, Pow(f, c)), f) == Scale(a, Pow(f, c + 1))
  {
    MulAssoc(a.length, Pow(f, c), f);
  }

  /** An entry after one step of the scan. */
  lemma StepAt(m: map<int, seq<Edge>>, e: Edge, f: real, n: int, k: int)
    requires 0 <= k < |AdjAt(m, n)|
    ensures var S := PenaltyStep(m, e, f);
            var a := AdjAt(m, n)[k];
            var a1 := if e.u == n && a.id == e.id then Scale(a, f) else a;
            |AdjAt(S, n)| == |AdjAt(m, n)|
            && AdjAt(S, n)[k] == if !e.oneway && e.v == n && a.id == e.id then Scale(a1, f) else a1
  {
    var m1 := m[e.u := ScaleId(AdjAt(m, e.u), e.id, f)];
    assert |AdjAt(m1, n)| == |AdjAt(m, n)|;
  }

  lemma StepEntry(adj: map<int, seq<Edge>>, index: map<int, Edge>, usage: Usage, done: set<int>, id: int, n: int, k: int)
    requires id in index && index[id].id == id && id !in done && id in usage
    requires 0 <= k < |AdjAt(adj, n)|
    ensures var P := PenalizedWith(adj, index, usage, done);
            var S := PenaltyStep(P, index[id], Factor(usage, id));
            |AdjAt(S, n)| == |AdjAt(adj, n)|
            && AdjAt(PenalizedWith(adj, index, usage, done + {id}), n)[k] == AdjAt(S, n)[k]
  {
    var P := PenalizedWith(adj, index, usage, done);
    var e := index[id];
    var f := Factor(usage, id);
    var a := AdjAt(adj, n)[k];
    var c := Times(index, usage, done, n, a.id);
    PenalizedAt(adj, index, usage, done, n, k);
    PenalizedAt(adj, index, usage, done + {id}, n, k);
    StepAt(P, e, f, n, k);
    if a.id == id {
      var x1 := if e.u == n then 1 else 0;
      var x2 := if !e.oneway && e.v == n then 1 else 0;
      assert Times(index, usage, done + {id}, n, a.id) == c + x1 + x2;
      ScaleAgain(a, f, c);
      ScaleAgain(a, f, c + x1);
    } else {
      assert Times(index, usage, done + {id}, n, a.id) == c;
    }
  }

  /** The vectors created by the scan over `done + {id}`. */
  lemma TouchedStep(index: map<int, Edge>, usage: Usage, done: set<int>, id: int)
    requires id in index
    ensures Touched(index, usage, done + {id})
            == if id in usage then Touched(index, usage, done) + {index[id].u} + (if index[id].oneway then {} else {index[id].v})
               else Touched(index, usage, done)
  {
    var T := Touched(index, usage, done);
    var T' := Touched(index, usage, done + {id});
    var e := index[id];
    forall y | y in T'
      ensures y in T || (id in usage && (y == e.u || (!e.oneway && y == e.v)))
    {
    }
    if id in usage {
      assert e.u in T';
      if !e.oneway {
        assert e.v in T';
      }
    }
  }

  /** What the penalty keeps: the nodes with vectors, each vector's length,
      each entry's id and endpoints, non-negative lengths, no shortening,
      and every entry of an unused edge as it was. */
  lemma PenaltySpec(adj: map<int, seq<Edge>>, index: map<int, Edge>, usage: Usage)
    requires Phase1Algorithms.CostsOk(adj, false)
    ensures var P := Penalized(adj, index, usage);
            adj.Keys <= P.Keys
            && (forall n :: |AdjAt(P, n)| == |AdjAt(adj, n)|)
            && (forall n, k :: 0 <= k < |AdjAt(adj, n)| ==>
                  AdjAt(P, n)[k].id == AdjAt(adj, n)[k].id && AdjAt(P, n)[k].u == AdjAt(adj, n)[k].u
                  && AdjAt(P, n)[k].v == AdjAt(adj, n)[k].v
                  && AdjAt(P, n)[k].length >= AdjAt(adj, n)[k].length
                  && (AdjAt(adj, n)[k].id !in usage ==> AdjAt(P, n)[k] == AdjAt(adj, n)[k]))
            && Phase1Algorithms.CostsOk(P, false)
  {
    var P := Penalized(adj, index, usage);
    forall n, k | 0 <= k < |AdjAt(adj, n)|
      ensures AdjAt(P, n)[k].id == AdjAt(adj, n)[k].id && AdjAt(P, n)[k].u == AdjAt(adj, n)[k].u
              && AdjAt(P, n)[k].v == AdjAt(adj, n)[k].v
              && AdjAt(P, n)[k].length >= AdjAt(adj, n)[k].length >= 0.0
              && (AdjAt(adj, n)[k].id !in usage ==> AdjAt(P, n)[k] == AdjAt(adj, n)[k])
    {
      var a := AdjAt(adj, n)[k];
      assert n in adj;
      PenalizedAt(adj, index, usage, index.Keys, n, k);
      var f := Factor(usage, a.id);
      var c := Times(index, usage, index.Keys, n, a.id);
      PowAtLeastOne(f, c);
      assert a.length * Pow(f, c) >= a.length * 1.0;
    }
    forall n, k | n in P && 0 <= k < |P[n]|
      ensures P[n][k].length >= 0.0
    {
      assert AdjAt(P, n) == P[n];
    }
  }

  /** Lengthening leaves the same hops, so a path of the penalised copy is a
      path of the graph. */
  lemma PenalizedPath(adj: map<int, seq<Edge>>, index: map<int, Edge>, usage: Usage, K: set<int>,
                      s: int, t: int, p: seq<int>)
    requires Phase1Algorithms.CostsOk(adj, false)
    requires PathIn(Penalized(adj, index, usage), K, s, t, p)
    ensures PathIn(adj, K, s, t, p)
  {
    forall q | 0 <= q < |p| - 1
      ensures HasEntry(adj, p[q], p[q + 1])
    {
      assert HasEntry(Penalized(adj, index, usage), p[q], p[q + 1]);
      PenalizedEntry(adj, index, usage, p[q], p[q + 1]);
    }
  }

  /** An entry of the penalised network is one of the original network. */
  lemma PenalizedEntry(adj: map<int, seq<Edge>>, index: map<int, Edge>, usage: Usage, u: int, v: int)
    requires Phase1Algorithms.CostsOk(adj, false)
    requires HasEntry(Penalized(adj, index, usage), u, v)
    ensures HasEntry(adj, u, v)
  {
    var P := Penalized(adj, index, usage);
    PenaltySpec(adj, index, usage);
    var a :| a in AdjAt(P, u) && a.v == v;
    var k :| 0 <= k < |AdjAt(P, u)| && AdjAt(P, u)[k] == a;
    assert AdjAt(adj, u)[k] in AdjAt(adj, u);
  }

  /** The scan over `mod.edge_by_id` on the copy's adjacency. */
  method PenalizeMap(adj: map<int, seq<Edge>>, index: map<int, Edge>, usage: Usage) returns (m: map<int, seq<Edge>>)
    requires IdsAgree(index)
    ensures m == Penalized(adj, index, usage)
  {
    m := adj;
    var keys := index.Keys;
    ghost var done: set<int> := {};
    PenalizedNone(adj, index, usage);
    while keys != {}
      invariant keys <= index.Keys && done == index.Keys - keys
      invariant m == PenalizedWith(adj, index, usage, done)
      decreases |keys|
    {
      var id := Pick(keys);
      var e := index[id];
      PenaltyStepOk(adj, index, usage, done, id);
      if id in usage {
        var f := Factor(usage, id);
        ghost var m0 := m;
        var vu := ScaleEntries(AdjAt(m, e.u), id, f);
        m := m[e.u := vu];
        if !e.oneway {
          var vv := ScaleEntries(AdjAt(m, e.v), id, f);
          m := m[e.v := vv];
        }
        assert m == PenaltyStep(m0, e, f);
      }
      keys := keys - {id};
      done := done + {id};
    }
    assert done == index.Keys;
  }

  /** Before the scan the copy is the graph. */
  lemma PenalizedNone(adj: map<int, seq<Edge>>, index: map<int, Edge>, usage: Usage)
    ensures PenalizedWith(adj, index, usage, {}) == adj
  {
    var P := PenalizedWith(adj, index, usage, {});
    assert Touched(index, usage, {}) == {};
    forall n | n in adj
      ensures P[n] == adj[n]
    {
      assert AdjAt(adj, n) == adj[n];
      forall k | 0 <= k < |adj[n]|
        ensures P[n][k] == adj[n][k]
      {
        assert Times(index, usage, {}, n, adj[n][k].id) == 0;
      }
    }
    MapsEqual(P, adj);
  }

  /** `for (auto &edge : mod.adj[x]) if (edge.id == id) edge.length *= f`. */
  method ScaleEntries(vec: seq<Edge>, id: int, f: real) returns (r: seq<Edge>)
    ensures r == ScaleId(vec, id, f)
  {
    r := vec;
    var k := 0;
    while k < |r|
      invariant 0 <= k <= |r| == |vec|
      invariant forall j :: 0 <= j < |vec| ==> r[j] == if j < k then ScaleId(vec, id, f)[j] else vec[j]
    {
      if r[k].id == id {
        r := r[k := r[k].(length := r[k].length * f)];
      }
      k := k + 1;
    }
  }

  /** `Graph mod = g` and the penalty scan over it. */
  method PenalizedCopy(nodes: map<int, Node>, s: Store, usage: Usage) returns (mod: Phase2Graph.Graph)
    requires IdsAgree(s.index)
    ensures fresh(mod) && mod.nodes == nodes && mod.adj == Penalized(s.adj, s.index, usage)
  {
    mod := new Phase2Graph.Graph();
    var m := PenalizeMap(s.adj, s.index, usage);
    mod.nodes, mod.adj, mod.edgeById, mod.removedEdges := nodes, m, s.index, s.removed;
  }

  /** A shortest route of the graph penalised by `usage`, with its nodes
      and cost. */
  ghost predicate PenalizedShortest(adj: map<int, seq<Edge>>, index: map<int, Edge>, usage: Usage, K: set<int>,
                                    src: int, tgt: int, r: PathResult)
  {
    var arcs := LengthView(Penalized(adj, index, usage));
    ArcsPre(arcs)
    && exists w :: Route(arcs, K, src, tgt, w) && Nodes(arcs, src, w) == r.path
                   && Arrive(arcs, src, w, 0.0) == r.length && Shortest(arcs, K, src, tgt, r.length)
  }

  /** Kept answers: simple paths of the graph from `src` to `tgt`, pairwise
      different, each overlapping every earlier one by at most the
      threshold, each after the first a shortest route under some usage. */
  ghost predicate KeptOk(adj: map<int, seq<Edge>>, index: map<int, Edge>, K: set<int>, src: int, tgt: int,
                         threshold: real, results: seq<PathResult>, usages: seq<Usage>)
  {
    |usages| == |results|
    && (forall j :: 0 <= j < |results| ==> PathIn(adj, K, src, tgt, results[j].path) && Distinct(results[j].path))
    && (forall j, l :: 0 <= j < l < |results| ==> results[j].path != results[l].path)
    && (forall j, l :: 0 <= j < l < |results| ==> OverlapAsWritten(results[j].path, results[l].path) <= threshold)
    && (forall j :: 1 <= j < |results| ==> PenalizedShortest(adj, index, usages[j], K, src, tgt, results[j]))
  }

  /** The overlap scan that admits a path: no kept path overlaps `p` by more than the
      threshold. */
  method Acceptable(results: seq<PathResult>, p: seq<int>, threshold: real) returns (ok: bool)
    ensures ok <==> forall j :: 0 <= j < |results| ==> OverlapAsWritten(results[j].path, p) <= threshold
  {
    ok := true;
    var l := 0;
    while l < |results|
      invariant 0 <= l <= |results|
      invariant forall j :: 0 <= j < l ==> OverlapAsWritten(results[j].path, p) <= threshold
    {
      var overlap := EdgeOverlap(results[l].path, p);
      if overlap > threshold {
        return false;
      }
      l := l + 1;
    }
  }

  /** The duplicate scan. */
  method IsDuplicate(results: seq<PathResult>, p: seq<int>) returns (dup: bool)
    ensures dup <==> exists j :: 0 <= j < |results| && results[j].path == p
  {
    var l := 0;
    while l < |results|
      invariant 0 <= l <= |results|
      invariant forall j :: 0 <= j < l ==> results[j].path != p
    {
      if results[l].path == p {
        return true;
      }
      l := l + 1;
    }
    return false;
  }

  /** Appending an answer found on its penalised copy keeps every later
      answer a penalised shortest path. */
  lemma KeepShortest(adj: map<int, seq<Edge>>, index: map<int, Edge>, K: set<int>, src: int, tgt: int,
                     results: seq<PathResult>, usages: seq<Usage>, usage: Usage, r: PathResult)
    requires |usages| == |results|
    requires forall j :: 1 <= j < |results| ==> PenalizedShortest(adj, index, usages[j], K, src, tgt, results[j])
    requires PenalizedShortest(adj, index, usage, K, src, tgt, r)
    ensures forall j :: 1 <= j < |results| + 1 ==>
              PenalizedShortest(adj, index, (usages + [usage])[j], K, src, tgt, (results + [r])[j])
  {
    forall j | 1 <= j < |results| + 1
      ensures PenalizedShortest(adj, index, (usages + [usage])[j], K, src, tgt, (results + [r])[j])
    {
      if j < |results| {
        assert (results + [r])[j] == results[j] && (usages + [usage])[j] == usages[j];
      } else {
        assert (results + [r])[j] == r && (usages + [usage])[j] == usage;
      }
    }
  }

  /** The path of a penalised shortest answer is a path of the graph. */
  lemma ShortestPathIn(adj: map<int, seq<Edge>>, index: map<int, Edge>, usage: Usage, K: set<int>,
                       src: int, tgt: int, r: PathResult)
    requires Phase1Algorithms.CostsOk(adj, false)
    requires PenalizedShortest(adj, index, usage, K, src, tgt, r)
    ensures PathIn(adj, K, src, tgt, r.path)
  {
    var arcs := LengthView(Penalized(adj, index, usage));
    var w :| Route(arcs, K, src, tgt, w) && Nodes(arcs, src, w) == r.path;
    RouteLinked(Penalized(adj, index, usage), K, src, tgt, w);
    PenalizedPath(adj, index, usage, K, src, tgt, r.path);
  }

  /** Appending a new simple path that overlaps no earlier answer by more
      than the threshold keeps the answers simple, distinct and spread. */
  lemma KeepPaths(adj: map<int, seq<Edge>>, K: set<int>, src: int, tgt: int, threshold: real,
                  results: seq<PathResult>, r: PathResult)
    requires forall j :: 0 <= j < |results| ==> PathIn(adj, K, src, tgt, results[j].path) && Distinct(results[j].path)
    requires forall j, l :: 0 <= j < l < |results| ==> results[j].path != results[l].path
    requires forall j, l :: 0 <= j < l < |results| ==> OverlapAsWritten(results[j].path, results[l].path) <= threshold
    requires PathIn(adj, K, src, tgt, r.path) && Distinct(r.path)
    requires forall j :: 0 <= j < |results| ==> OverlapAsWritten(results[j].path, r.path) <= threshold
    requires forall j :: 0 <= j < |results| ==> results[j].path != r.path
    ensures var R := results + [r];
            (forall j :: 0 <= j < |R| ==> PathIn(adj, K, src, tgt, R[j].path) && Distinct(R[j].path))
            && (forall j, l :: 0 <= j < l < |R| ==> R[j].path != R[l].path)
            && (forall j, l :: 0 <= j < l < |R| ==> OverlapAsWritten(R[j].path, R[l].path) <= threshold)
  {
    var R := results + [r];
    forall j | 0 <= j < |R|
      ensures PathIn(adj, K, src, tgt, R[j].path) && Distinct(R[j].path)
    {
      if j < |results| {
        assert R[j] == results[j];
      }
    }
    forall j, l | 0 <= j < l < |R|
      ensures R[j].path != R[l].path && OverlapAsWritten(R[j].path, R[l].path) <= threshold
    {
      assert R[j] == results[j];
      if l < |results| {
        assert R[l] == results[l];
      }
    }
  }

  /** Appending an accepted, new answer found on the penalised copy keeps
      the invariant. */
  lemma KeepStep(adj: map<int, seq<Edge>>, index: map<int, Edge>, K: set<int>, src: int, tgt: int, threshold: real,
                 results: seq<PathResult>, usages: seq<Usage>, usage: Usage, r: PathResult)
    requires Phase1Algorithms.CostsOk(adj, false) && |results| >= 1
    requires KeptOk(adj, index, K, src, tgt, threshold, results, usages)
    requires PenalizedShortest(adj, index, usage, K, src, tgt, r)
    requires Distinct(r.path)
    requires forall j :: 0 <= j < |results| ==> OverlapAsWritten(results[j].path, r.path) <= threshold
    requires forall j :: 0 <= j < |results| ==> results[j].path != r.path
    ensures KeptOk(adj, index, K, src, tgt, threshold, results + [r], usages + [usage])
  {
    ShortestPathIn(adj, index, usage, K, src, tgt, r);
    KeepPaths(adj, K, src, tgt, threshold, results, r);
    KeepShortest(adj, index, K, src, tgt, results, usages, usage, r);
  }

  /** `heuristic_k_shortest_paths(g, src, tgt, k, overlap_threshold)`.
      `g` is only read: each round searches a fresh penalised copy.
      `usages[j]` is the usage answer `j` was found under (none for the
      base answer); every later usage has answer `j`'s hops charged once on
      top of it. */
  method HeuristicKShortest(g: Phase2Graph.Graph, src: int, tgt: int, k: int, threshold: real)
    returns (results: seq<PathResult>, ghost w0: seq<Hop>, ghost usages: seq<Usage>)
    requires Phase1Algorithms.CostsOk(g.adj, false) && IdsAgree(g.edgeById)
    ensures results == [] <==> src !in g.nodes || tgt !in g.nodes || NoRoute(LengthView(g.adj), g.nodes.Keys, src, tgt)
    ensures |results| <= if k < 1 then 1 else k
    ensures |results| > 0 ==>
              Route(LengthView(g.adj), g.nodes.Keys, src, tgt, w0) && Nodes(LengthView(g.adj), src, w0) == results[0].path
              && Arrive(LengthView(g.adj), src, w0, 0.0) == results[0].length
              && Shortest(LengthView(g.adj), g.nodes.Keys, src, tgt, results[0].length)
    ensures KeptOk(g.adj, g.edgeById, g.nodes.Keys, src, tgt, threshold, results, usages)
    ensures |results| > 0 ==> usages[0] == map[]
    ensures forall j :: 0 <= j < |results| - 1 ==>
              UsageLe(ChargedPath(usages[j], g.adj, results[j].path, 1), usages[j + 1])
  {
    var base: Phase1Algorithms.SPResult;
    base, w0 := Dijkstra(g.nodes, g.adj, src, tgt);
    usages := [];
    if !base.possible {
      return [], w0, usages;
    }
    RouteLinked(g.adj, g.nodes.Keys, src, tgt, w0);
    results := [PathResult(base.path, base.cost)];
    usages := [map[]];
    var usage := ChargePath(map[], g.adj, base.path, 1);
    var ki := 1;
    while ki < k
      invariant 1 <= |results| <= ki && ki <= (if k < 1 then 1 else k)
      invariant results[0] == PathResult(base.path, base.cost)
      invariant KeptOk(g.adj, g.edgeById, g.nodes.Keys, src, tgt, threshold, results, usages)
      invariant ChargesOk(g.adj, results, usages, usage)
    {
      var stop;
      ghost var before := results;
      ghost var found;
      ghost var usages0, usage0 := usages, usage;
      stop, results, usages, usage, found := Round(g, src, tgt, threshold, results, usages, usage);
      ChargesKept(g.adj, before, usages0, usage0, results, usages, usage, found);
      assert results[0] == before[0];
      if stop {
        break;
      }
      ki := ki + 1;
    }
  }

  /** One round of the loop of `heuristic_k_shortest`: search the penalised
      copy; stop when the target is unreachable there; otherwise keep the
      path if it overlaps every kept one little enough and is new, and
      charge its edges to the usage (twice when it overlaps too much).
      `found` is the answer of the round's search. */
  method Round(g: Phase2Graph.Graph, src: int, tgt: int, threshold: real, results: seq<PathResult>,
               ghost usages: seq<Usage>, usage: Usage)
    returns (stop: bool, results': seq<PathResult>, ghost usages': seq<Usage>, usage': Usage, ghost found: PathResult)
    requires Phase1Algorithms.CostsOk(g.adj, false) && IdsAgree(g.edgeById)
    requires |results| >= 1 && KeptOk(g.adj, g.edgeById, g.nodes.Keys, src, tgt, threshold, results, usages)
    ensures KeptOk(g.adj, g.edgeById, g.nodes.Keys, src, tgt, threshold, results', usages')
    ensures stop ==> results' == results && usage' == usage
                     && NoRoute(LengthView(Penalized(g.adj, g.edgeById, usage)), g.nodes.Keys, src, tgt)
    ensures !stop ==> PenalizedShortest(g.adj, g.edgeById, usage, g.nodes.Keys, src, tgt, found)
    ensures !stop && (exists j :: 0 <= j < |results| && OverlapAsWritten(results[j].path, found.path) > threshold) ==>
              results' == results && usages' == usages && usage' == ChargedPath(usage, g.adj, found.path, 2)
    ensures !stop && (forall j :: 0 <= j < |results| ==> OverlapAsWritten(results[j].path, found.path) <= threshold)
            && (exists j :: 0 <= j < |results| && results[j].path == found.path) ==>
              results' == results && usages' == usages && usage' == usage
    ensures !stop && (forall j :: 0 <= j < |results| ==> OverlapAsWritten(results[j].path, found.path) <= threshold)
            && (forall j :: 0 <= j < |results| ==> results[j].path != found.path) ==>
              results' == results + [found] && usages' == usages + [usage]
              && usage' == ChargedPath(usage, g.adj, found.path, 1)
    ensures (results' == results && usages' == usages)
            || (results' == results + [found] && usages' == usages + [usage]
                && usage' == ChargedPath(usage, g.adj, found.path, 1))
    ensures UsageLe(usage, usage')
  {
    results', usages', usage' := results, usages, usage;
    var mod := PenalizedCopy(g.nodes, g.State(), usage);
    ghost var P := mod.adj;
    PenaltySpec(g.adj, g.edgeById, usage);
    var res: Phase1Algorithms.SPResult;
    ghost var w: seq<Hop>;
    res, w := Dijkstra(mod.nodes, mod.adj, src, tgt);
    found := PathResult(res.path, res.cost);
    stop := !res.possible;
    assert src in g.nodes && tgt in g.nodes by {
      assert PathIn(g.adj, g.nodes.Keys, src, tgt, results[0].path);
    }
    if !stop {
      RouteLinked(P, g.nodes.Keys, src, tgt, w);
      PenalizedPath(g.adj, g.edgeById, usage, g.nodes.Keys, src, tgt, res.path);
      assert PenalizedShortest(g.adj, g.edgeById, usage, g.nodes.Keys, src, tgt, found);
      var acceptable := Acceptable(results, res.path, threshold);
      if !acceptable {
        usage' := ChargePath(usage, g.adj, res.path, 2);
        ChargedPathGrows(usage, g.adj, res.path, 2);
      } else {
        var dup := IsDuplicate(results, res.path);
        if !dup {
          var r := PathResult(res.path, res.cost);
          KeepStep(g.adj, g.edgeById, g.nodes.Keys, src, tgt, threshold, results, usages, usage, r);
          results' := results + [r];
          usages' := usages + [usage];
          usage' := ChargePath(usage, g.adj, res.path, 1);
          ChargedPathGrows(usage, g.adj, res.path, 1);
        }
      }
    }
  }

  /** Every edge is charged at least as often under `b` as under `a`. */
  ghost predicate UsageLe(a: Usage, b: Usage)
  {
    forall id :: Use(a, id) <= Use(b, id)
  }

  /** Charging a whole path only raises counts. */
  lemma ChargedPathGrows(usage: Usage, adj: map<int, seq<Edge>>, p: seq<int>, amt: nat)
    ensures UsageLe(usage, ChargedPath(usage, adj, p, amt))
  {
    if |p| > 1 {
      ChargedGrows(usage, adj, p, |p| - 1, amt);
    }
  }

  /** The charge bookkeeping of the loop: the base answer has no usage,
      each later usage has the previous answer's hops charged once on top
      of the previous usage, and the running usage has the same for the
      last answer. */
  ghost predicate ChargesOk(adj: map<int, seq<Edge>>, results: seq<PathResult>, usages: seq<Usage>, usage: Usage)
  {
    |usages| == |results| >= 1 && usages[0] == map[]
    && (forall j :: 0 <= j < |results| - 1 ==> UsageLe(ChargedPath(usages[j], adj, results[j].path, 1), usages[j + 1]))
    && UsageLe(ChargedPath(usages[|results| - 1], adj, results[|results| - 1].path, 1), usage)
  }

  /** A round that raises the usage and either keeps the answers or
      appends one charged once keeps the bookkeeping. */
  lemma ChargesKept(adj: map<int, seq<Edge>>, results: seq<PathResult>, usages: seq<Usage>, usage: Usage,
                    results': seq<PathResult>, usages': seq<Usage>, usage': Usage, found: PathResult)
    requires ChargesOk(adj, results, usages, usage) && UsageLe(usage, usage')
    requires (results' == results && usages' == usages)
             || (results' == results + [found] && usages' == usages + [usage]
                 && usage' == ChargedPath(usage, adj, found.path, 1))
    ensures ChargesOk(adj, results', usages', usage')
  {
    if results' == results && usages' == usages {
      var last := ChargedPath(usages[|results| - 1], adj, results[|results| - 1].path, 1);
      forall id
        ensures Use(last, id) <= Use(usage', id)
      {
        assert Use(last, id) <= Use(usage, id);
      }
    } else {
      forall j | 0 <= j < |results'| - 1
        ensures UsageLe(ChargedPath(usages'[j], adj, results'[j].path, 1), usages'[j + 1])
      {
        assert results'[j] == results[j] && usages'[j] == usages[j];
        if j < |results| - 1 {
          assert usages'[j + 1] == usages[j + 1];
        }
      }
    }
  }

  /** When every node id is a non-negative 32-bit value the packed codes are
      exact, so the kept answers are spread by the intended overlap too. */
  lemma KeptSpreadIntended(adj: map<int, seq<Edge>>, index: map<int, Edge>, K: set<int>, src: int, tgt: int,
                           threshold: real, results: seq<PathResult>, usages: seq<Usage>)
    requires KeptOk(adj, index, K, src, tgt, threshold, results, usages)
    requires forall x :: x in K ==> 0 <= x && Int32(x)
    ensures forall j, l :: 0 <= j < l < |results| ==> OverlapOf(results[j].path, results[l].path) <= threshold
  {
    forall j, l | 0 <= j < l < |results|
      ensures OverlapOf(results[j].path, results[l].path) <= threshold
    {
      assert PathIn(adj, K, src, tgt, results[j].path) && PathIn(adj, K, src, tgt, results[l].path);
      assert OverlapAsWritten(results[j].path, results[l].path) <= threshold;
      PairIntended(K, results[j].path, results[l].path);
    }
  }

  /** Two paths over such ids overlap as written exactly as intended. */
  lemma PairIntended(K: set<int>, p1: seq<int>, p2: seq<int>)
    requires forall x :: x in K ==> 0 <= x && Int32(x)
    requires forall x :: x in p1 ==> x in K
    requires forall x :: x in p2 ==> x in K
    ensures OverlapAsWritten(p1, p2) == OverlapOf(p1, p2)
  {
    assert forall k :: 0 <= k < |p1| ==> p1[k] in p1;
    assert forall k :: 0 <= k < |p2| ==> p2[k] in p2;
    OverlapAgrees(p1, p2);
  }
}
