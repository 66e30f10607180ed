// The edge-overlap percentage of two node paths (`calculate_edge_overlap`):
// each path's consecutive pairs are packed into one 64-bit code, the codes
// of each path are collected in a hash set, and the shared codes are
// counted against the smaller set.
module Overlap {
  import opened Common

  const TWO32: int := 0x1_0000_0000

  /** A C++ `int`. */
  predicate Int32(x: int)
  {
    -0x8000_0000 <= x < 0x8000_0000
  }

  predicate AllInt32(p: seq<int>)
  {
    forall k :: 0 <= k < |p| ==> Int32(p[k])
  }

  /** `((long long)u << 32) | v` as written: `v` is sign-extended to 64 bits
      before the `|`, so a negative `v` sets every high bit and the code is
      `v` itself, whatever `u` is. */
  function EncodeAsWritten(u: int, v: int): int
  {
    if v >= 0 then u * TWO32 + v else v
  }

  /** The packing with `v` taken as its unsigned 32-bit pattern. */
  function Encode(u: int, v: int): int
  {
    u * TWO32 + v % TWO32
  }

  /** Hop `k` of a path, as a node pair. */
  function PairAt(p: seq<int>, k: int): (int, int)
    requires 0 <= k < |p| - 1
  {
    (p[k], p[k + 1])
  }

  /** The directed node pairs a path walks along. */
  function PairSet(p: seq<int>): set<(int, int)>
  {
    set k | 0 <= k < |p| - 1 :: PairAt(p, k)
  }

  function CodeAt(p: seq<int>, k: int): int
    requires 0 <= k < |p| - 1
  {
    Encode(p[k], p[k + 1])
  }

  function Codes(p: seq<int>): set<int>
  {
    set k | 0 <= k < |p| - 1 :: CodeAt(p, k)
  }

  function CodeAsWrittenAt(p: seq<int>, k: int): int
    requires 0 <= k < |p| - 1
  {
    EncodeAsWritten(p[k], p[k + 1])
  }

  function CodesAsWritten(p: seq<int>): set<int>
  {
    set k | 0 <= k < |p| - 1 :: CodeAsWrittenAt(p, k)
  }

  /** `100 * common / min(|e1|, |e2|)`, and 0 when either set is empty. */
  function Percent(e1: set<int>, e2: set<int>): real
  {
    var m := if |e1| <= |e2| then |e1| else |e2|;
    if m == 0 then 0.0 else 100.0 * (|e1 * e2| as real) / (m as real)
  }

  /** The evidently intended overlap: shared directed hops over the hops of
      the path with fewer distinct ones, in percent; 0 when a path has no
      hop. */
  function OverlapOf(p1: seq<int>, p2: seq<int>): real
  {
    if |p1| <= 1 || |p2| <= 1 then 0.0
    else
      var a := PairSet(p1);
      var b := PairSet(p2);
      var m := if |a| <= |b| then |a| else |b|;
      if m == 0 then 0.0 else 100.0 * (|a * b| as real) / (m as real)
  }

  /** What the code computes as written. */
  function OverlapAsWritten(p1: seq<int>, p2: seq<int>): real
  {
    if |p1| <= 1 || |p2| <= 1 then 0.0 else Percent(CodesAsWritten(p1), CodesAsWritten(p2))
  }

  lemma MulBelow(x: int, y: int)
    requires x * TWO32 == y && -TWO32 < y < TWO32
    ensures x == 0
  {
  }

  /** The packing tells apart any two pairs of C++ ints. */
  lemma EncodeInjective(a: int, b: int, c: int, d: int)
    requires Int32(a) && Int32(b) && Int32(c) && Int32(d)
    requires Encode(a, b) == Encode(c, d)
    ensures a == c && b == d
  {
    var r1 := b % TWO32;
    var r2 := d % TWO32;
    assert (a - c) * TWO32 == r2 - r1;
    MulBelow(a - c, r2 - r1);
    assert b == (b / TWO32) * TWO32 + r1;
    assert d == (d / TWO32) * TWO32 + r2;
    assert (b / TWO32 - d / TWO32) * TWO32 == b - d;
    MulBelow(b / TWO32 - d / TWO32, b - d);
  }

  /** For a non-negative second node the code as written is the intended
      one. */
  lemma EncodeAgrees(u: int, v: int)
    requires 0 <= v < TWO32
    ensures EncodeAsWritten(u, v) == Encode(u, v)
  {
  }

  /** Two different hops into node -1 get the same code as written, so two
      paths with no hop in common are reported as overlapping fully. */
  lemma OverlapCollision()
    ensures EncodeAsWritten(1, -1) == EncodeAsWritten(2, -1)
    ensures OverlapAsWritten([1, -1], [2, -1]) == 100.0
    ensures OverlapOf([1, -1], [2, -1]) == 0.0
  {
    var p1, p2 := [1, -1], [2, -1];
    assert CodesAsWritten(p1) == {-1} by {
      assert CodeAsWrittenAt(p1, 0) == -1;
    }
    assert CodesAsWritten(p2) == {-1} by {
      assert CodeAsWrittenAt(p2, 0) == -1;
    }
    assert PairSet(p1) == {(1, -1)} by {
      assert PairAt(p1, 0) == (1, -1);
    }
    assert PairSet(p2) == {(2, -1)} by {
      assert PairAt(p2, 0) == (2, -1);
    }
    assert PairSet(p1) * PairSet(p2) == {};
  }

  ghost function Image(S: set<(int, int)>): set<int>
  {
    set x | x in S :: Encode(x.0, x.1)
  }

  ghost predicate Int32Pairs(S: set<(int, int)>)
  {
    forall x :: x in S ==> Int32(x.0) && Int32(x.1)
  }

  lemma {:induction false} ImageCard(S: set<(int, int)>)
    requires Int32Pairs(S)
    ensures |Image(S)| == |S|
    decreases |S|
  {
    if S != {} {
      var x :| x in S;
      var S' := S - {x};
      ImageCard(S');
      assert Image(S) == Image(S') + {Encode(x.0, x.1)};
      if Encode(x.0, x.1) in Image(S') {
        var y :| y in S' && Encode(y.0, y.1) == Encode(x.0, x.1);
        EncodeInjective(y.0, y.1, x.0, x.1);
        assert false;
      }
    }
  }

  lemma ImageMeet(S: set<(int, int)>, T: set<(int, int)>)
    requires Int32Pairs(S) && Int32Pairs(T)
    ensures Image(S * T) == Image(S) * Image(T)
  {
    forall c | c in Image(S) * Image(T)
      ensures c in Image(S * T)
    {
      var x :| x in S && Encode(x.0, x.1) == c;
      var y :| y in T && Encode(y.0, y.1) == c;
      EncodeInjective(x.0, x.1, y.0, y.1);
    }
  }

  lemma CodesImage(p: seq<int>)
    requires AllInt32(p)
    ensures Codes(p) == Image(PairSet(p)) && Int32Pairs(PairSet(p))
  {
    forall x | x in PairSet(p)
      ensures Int32(x.0) && Int32(x.1) && Encode(x.0, x.1) in Codes(p)
    {
      var k :| 0 <= k < |p| - 1 && x == PairAt(p, k);
      assert CodeAt(p, k) == Encode(x.0, x.1);
    }
    forall c | c in Codes(p)
      ensures c in Image(PairSet(p))
    {
      var k :| 0 <= k < |p| - 1 && c == CodeAt(p, k);
      assert PairAt(p, k) in PairSet(p);
    }
  }

  /** Over paths of C++ ints, counting codes is counting hops. */
  lemma CodesCount(p1: seq<int>, p2: seq<int>)
    requires AllInt32(p1) && AllInt32(p2)
    ensures |Codes(p1)| == |PairSet(p1)| && |Codes(p2)| == |PairSet(p2)|
    ensures |Codes(p1) * Codes(p2)| == |PairSet(p1) * PairSet(p2)|
  {
    CodesImage(p1);
    CodesImage(p2);
    ImageCard(PairSet(p1));
    ImageCard(PairSet(p2));
    ImageMeet(PairSet(p1), PairSet(p2));
    ImageCard(PairSet(p1) * PairSet(p2));
  }

  /** The hash-set pass over one path, with the packing as written. */
  method CollectCodes(p: seq<int>) returns (e: set<int>)
    ensures e == CodesAsWritten(p)
  {
    e := {};
    var i := 0;
    while i + 1 < |p|
      invariant 0 <= i <= |p| || (|p| == 0 && i == 0)
      invariant e == set k | 0 <= k < i && k < |p| - 1 :: CodeAsWrittenAt(p, k)
    {
      e := e + {CodeAsWrittenAt(p, i)};
      i := i + 1;
    }
  }

  /** `calculate_edge_overlap` as written. */
  method EdgeOverlap(p1: seq<int>, p2: seq<int>) returns (r: real)
    ensures r == OverlapAsWritten(p1, p2)
  {
    if |p1| <= 1 || |p2| <= 1 {
      return 0.0;
    }
    var e1 := CollectCodes(p1);
    var e2 := CollectCodes(p2);
    var common := CountShared(e1, e2);
    var total := if |e1| <= |e2| then |e1| else |e2|;
    if total == 0 {
      return 0.0;
    }
    r := 100.0 * (common as real) / (total as real);
  }

  /** `for (e : edges1) if (edges2.count(e)) common++`. */
  method CountShared(e1: set<int>, e2: set<int>) returns (common: nat)
    ensures common == |e1 * e2|
  {
    common := 0;
    var rest := e1;
    ghost var done: set<int> := {};
    while rest != {}
      invariant done + rest == e1 && done !! rest
      invariant common == |done * e2|
      decreases |rest|
    {
      var c := Pick(rest);
      ShareStep(done, c, e2);
      if c in e2 {
        common := common + 1;
      }
      done, rest := done + {c}, rest - {c};
    }
    assert done == e1;
  }

  /** One more edge of the first path adds one to the count exactly when
      the second path has it. */
  lemma ShareStep(done: set<int>, c: int, e2: set<int>)
    requires c !in done
    ensures |(done + {c}) * e2| == |done * e2| + (if c in e2 then 1 else 0)
  {
    if c in e2 {
      assert (done + {c}) * e2 == done * e2 + {c};
    } else {
      assert (done + {c}) * e2 == done * e2;
    }
  }

  /** The overlap is a percentage, the same both ways round, and full for a
      path against itself. */
  lemma OverlapSpec(p1: seq<int>, p2: seq<int>)
    ensures 0.0 <= OverlapOf(p1, p2) <= 100.0
    ensures OverlapOf(p1, p2) == OverlapOf(p2, p1)
    ensures |p1| >= 2 ==> OverlapOf(p1, p1) == 100.0
    ensures |p1| <= 1 || |p2| <= 1 ==> OverlapOf(p1, p2) == 0.0
  {
    OverlapRange(p1, p2);
    OverlapSym(p1, p2);
    if |p1| >= 2 {
      OverlapSelf(p1);
    }
  }

  lemma OverlapRange(p1: seq<int>, p2: seq<int>)
    ensures 0.0 <= OverlapOf(p1, p2) <= 100.0
  {
    if |p1| > 1 && |p2| > 1 {
      var a := PairSet(p1);
      var b := PairSet(p2);
      SubsetCard(a * b, a);
      SubsetCard(a * b, b);
      var m := if |a| <= |b| then |a| else |b|;
      if m != 0 {
        RatioBound(|a * b| as real, m as real);
      }
    }
  }

  lemma OverlapSym(p1: seq<int>, p2: seq<int>)
    ensures OverlapOf(p1, p2) == OverlapOf(p2, p1)
  {
    assert PairSet(p1) * PairSet(p2) == PairSet(p2) * PairSet(p1);
  }

  lemma OverlapSelf(p: seq<int>)
    requires |p| >= 2
    ensures OverlapOf(p, p) == 100.0
  {
    var a := PairSet(p);
    assert PairAt(p, 0) in a;
    assert a * a == a;
    RatioBound(|a| as real, |a| as real);
  }

  /** A share of a positive whole, as a percentage. */
  lemma RatioBound(x: real, m: real)
    requires 0.0 <= x <= m && m > 0.0
    ensures 0.0 <= 100.0 * x / m <= 100.0
    ensures x == m ==> 100.0 * x / m == 100.0
  {
    assert 100.0 * x / m == 100.0 * (x / m);
    assert x / m <= 1.0 by {
      assert x / m * m == x;
    }
  }

  /** The overlap as written is a percentage too, the same both ways round,
      and full for a path against itself. */
  lemma OverlapAsWrittenSpec(p1: seq<int>, p2: seq<int>)
    ensures 0.0 <= OverlapAsWritten(p1, p2) <= 100.0
    ensures OverlapAsWritten(p1, p2) == OverlapAsWritten(p2, p1)
    ensures |p1| >= 2 ==> OverlapAsWritten(p1, p1) == 100.0
    ensures |p1| <= 1 || |p2| <= 1 ==> OverlapAsWritten(p1, p2) == 0.0
  {
    var e1, e2 := CodesAsWritten(p1), CodesAsWritten(p2);
    SubsetCard(e1 * e2, e1);
    SubsetCard(e1 * e2, e2);
    var m := if |e1| <= |e2| then |e1| else |e2|;
    if m != 0 {
      RatioBound(|e1 * e2| as real, m as real);
    }
    assert e1 * e2 == e2 * e1;
    if |p1| >= 2 {
      assert CodeAsWrittenAt(p1, 0) in e1;
      assert e1 * e1 == e1;
      RatioBound(|e1| as real, |e1| as real);
    }
  }

  predicate AllNonNegative(p: seq<int>)
  {
    forall k :: 0 <= k < |p| ==> p[k] >= 0
  }

  /** On paths of non-negative C++ ints the overlap as written is the
      intended one. */
  lemma OverlapAgrees(p1: seq<int>, p2: seq<int>)
    requires AllInt32(p1) && AllInt32(p2) && AllNonNegative(p1) && AllNonNegative(p2)
    ensures OverlapAsWritten(p1, p2) == OverlapOf(p1, p2)
  {
    CodesAgree(p1);
    CodesAgree(p2);
    CodesCount(p1, p2);
  }

  lemma CodesAgree(p: seq<int>)
    requires AllInt32(p) && AllNonNegative(p)
    ensures CodesAsWritten(p) == Codes(p)
  {
    forall k | 0 <= k < |p| - 1
      ensures CodeAsWrittenAt(p, k) == CodeAt(p, k)
    {
      EncodeAgrees(p[k], p[k + 1]);
    }
  }
}
