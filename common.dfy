// Shared vocabulary of the road-network model: optional values, extended
// distances, the road records of the C++ graph store, and small sequence
// helpers used by several modules.
module Common {

  datatype Option<T> = None | Some(value: T)

  /** A distance that may be infinite (C++ `numeric_limits<double>::infinity()`,
      Python `math.inf`). */
  datatype Ext = Inf | Fin(val: real)

  predicate Lt(a: Ext, b: Ext)
  {
    match (a, b)
    case (Fin(x), Fin(y)) => x < y
    case (Fin(_), Inf) => true
    case _ => false
  }

  predicate Le(a: Ext, b: Ext)
  {
    match (a, b)
    case (Fin(x), Fin(y)) => x <= y
    case (_, Inf) => true
    case _ => false
  }

  /** The finite stand-in for "infinity" that several files use (1e18). */
  const SENTINEL: real := 1000000000000000000.0

  /** A road node: id, coordinates and the points of interest tagged on it. */
  datatype Node = Node(id: int, lat: real, lon: real, pois: seq<string>)

  /** A road segment as the C++ graph store keeps it (Phase-1 and Phase-2 share
      the record; Phase-1's unused `is_removed` flag is not modelled). */
  datatype Edge = Edge(id: int, u: int, v: int, length: real, averageTime: real,
                       speedProfile: seq<real>, oneway: bool, roadType: string)

  /** A `modify_edge` patch: the keys the programs recognise, each present or
      absent, and the names of any other keys. */
  datatype Patch = Patch(length: Option<real>, averageTime: Option<real>,
                         speedProfile: Option<seq<real>>, roadType: Option<string>,
                         oneway: Option<bool>, otherKeys: seq<string>)

  /** A path answer `{"path": [...], "length": ...}`. */
  datatype PathLen = PathLen(path: seq<int>, length: real)

  /** A patch object with no key at all (`patch.empty()`, `not patch`). */
  predicate EmptyPatch(p: Patch)
  {
    p.length.None? && p.averageTime.None? && p.speedProfile.None? && p.roadType.None?
    && p.oneway.None? && |p.otherKeys| == 0
  }

  /** The copy of an edge stored in `adj[e.v]` for a two-way road. */
  function Reversed(e: Edge): (r: Edge)
    ensures r.u == e.v && r.v == e.u && r.id == e.id
    ensures r.(u := e.u, v := e.v) == e
  {
    e.(u := e.v, v := e.u)
  }

  /** `adj[u]` read through C++ `operator[]`: a missing key reads as empty. */
  function AdjAt(adj: map<int, seq<Edge>>, u: int): seq<Edge>
  {
    if u in adj then adj[u] else []
  }

  /** `vec.erase(remove_if(..., x.id == id))`: the entries with another id, in order. */
  function WithoutId(s: seq<Edge>, id: int): (r: seq<Edge>)
    ensures |r| <= |s|
    ensures forall x :: x in r <==> x in s && x.id != id
  {
    if |s| == 0 then []
    else if s[0].id == id then WithoutId(s[1..], id)
    else [s[0]] + WithoutId(s[1..], id)
  }

  /** Does the node carry the point-of-interest tag? */
  predicate HasPoi(n: Node, poi: string)
  {
    poi in n.pois
  }

  /** Squared Euclidean distance between two coordinate pairs. The source takes
      the square root (`sqrt`, `hypot`); the square keeps every comparison
      between non-negative distances, so rankings and strict `<` tests agree. */
  function SqDist(lat1: real, lon1: real, lat2: real, lon2: real): (r: real)
    ensures r >= 0.0
  {
    (lat1 - lat2) * (lat1 - lat2) + (lon1 - lon2) * (lon1 - lon2)
  }

  /** Some element of a non-empty set (the iteration order of a hash container
      is unspecified, so the model lets any element come first). */
  method Pick<T>(s: set<T>) returns (x: T)
    requires s != {}
    ensures x in s
  {
    x :| x in s;
  }

  /** The outcome of a nearest-node scan with a strict bound: nothing when no
      node lies strictly within the bound, else a node of least distance. */
  predicate NearestOk(nodes: map<int, Node>, lat: real, lon: real, bound: Ext, best: Option<int>)
  {
    match best
    case None => forall id :: id in nodes ==> !Lt(Fin(SqDist(lat, lon, nodes[id].lat, nodes[id].lon)), bound)
    case Some(b) =>
      b in nodes && Lt(Fin(SqDist(lat, lon, nodes[b].lat, nodes[b].lon)), bound)
      && forall id :: id in nodes ==>
           SqDist(lat, lon, nodes[b].lat, nodes[b].lon) <= SqDist(lat, lon, nodes[id].lat, nodes[id].lon)
  }

  /** A linear scan over the nodes keeping the best so far under strict `<`
      (`bestD` starts at the bound); the map's iteration order is
      unspecified. */
  method ScanNearest(nodes: map<int, Node>, lat: real, lon: real, bound: Ext) returns (best: Option<int>)
    ensures NearestOk(nodes, lat, lon, bound, best)
  {
    var bestD := bound;
    best := None;
    var rest := nodes.Keys;
    while rest != {}
      invariant rest <= nodes.Keys
      invariant best.None? ==> bestD == bound
      invariant best.Some? ==>
                  best.value in nodes
                  && bestD == Fin(SqDist(lat, lon, nodes[best.value].lat, nodes[best.value].lon))
                  && Lt(bestD, bound)
      invariant forall id :: id in nodes && id !in rest ==>
                  !Lt(Fin(SqDist(lat, lon, nodes[id].lat, nodes[id].lon)), bestD)
      decreases |rest|
    {
      var id := Pick(rest);
      var d := SqDist(lat, lon, nodes[id].lat, nodes[id].lon);
      if Lt(Fin(d), bestD) {
        bestD := Fin(d);
        best := Some(id);
      }
      rest := rest - {id};
    }
  }

  function Sum(s: seq<real>): real
  {
    if |s| == 0 then 0.0 else Sum(s[..|s| - 1]) + s[|s| - 1]
  }

  /** The elements of a list, as a set (`unordered_set(v.begin(), v.end())`). */
  function ToSet<T(!new)>(s: seq<T>): (r: set<T>)
    ensures forall x :: x in r <==> x in s
  {
    set x | x in s
  }

  /** No element occurs twice. */
  predicate Distinct<T(==)>(s: seq<T>)
  {
    forall i, j :: 0 <= i < j < |s| ==> s[i] != s[j]
  }

  function Reverse<T>(s: seq<T>): (r: seq<T>)
    ensures |r| == |s|
    ensures forall i :: 0 <= i < |s| ==> r[i] == s[|s| - 1 - i]
  {
    if |s| == 0 then [] else Reverse(s[1..]) + [s[0]]
  }

  lemma ReverseSnoc<T>(s: seq<T>, x: T)
    ensures Reverse(s + [x]) == [x] + Reverse(s)
  {
    assert Reverse(s + [x])[0] == x;
    assert forall i :: 1 <= i <= |s| ==> Reverse(s + [x])[i] == Reverse(s)[i - 1];
  }

  /** A list is what comes before, at and after a position. */
  lemma SplitAround<T>(x: seq<T>, k: int)
    requires 0 <= k < |x|
    ensures x == x[..k] + ([x[k]] + x[k + 1..])
  {
    assert x[k..] == [x[k]] + x[k + 1..];
    assert x == x[..k] + x[k..];
  }

  /** Dropping the last item of a join drops it from the second part. */
  lemma JoinDropLast<T>(a: seq<T>, b: seq<T>)
    requires |b| > 0
    ensures (a + b)[..|a + b| - 1] == a + b[..|b| - 1] && (a + b)[|a + b| - 1] == b[|b| - 1]
  {
  }

  lemma JoinNone<T>(a: seq<T>, b: seq<T>)
    requires |b| == 0
    ensures a + b == a
  {
  }

  lemma TakeDrop<T>(x: seq<T>, k: int)
    requires 0 <= k <= |x|
    ensures x == x[..k] + x[k..]
  {
  }

  /** The prefix one longer, cut back, is the shorter prefix. */
  lemma TakeStep<T>(x: seq<T>, k: int)
    requires 0 <= k < |x|
    ensures x[..k + 1][..k] == x[..k] && x[..k + 1][k] == x[k] && |x[..k + 1]| == k + 1
  {
  }

  /** A non-empty sequence is its front with its last element put back. */
  lemma SnocLast<T>(x: seq<T>)
    requires |x| >= 1
    ensures x[..|x| - 1] + [x[|x| - 1]] == x
  {
  }

  lemma TakeAll<T>(x: seq<T>)
    ensures x[..|x|] == x
  {
  }

  /** Updating one position leaves the parts before and after it alone. */
  lemma UpdateSlices<T>(x: seq<T>, d: int, v: T)
    requires 0 <= d < |x|
    ensures x[d := v][..d] == x[..d] && x[d := v][d + 1..] == x[d + 1..] && x[d := v][d] == v
  {
  }

  lemma Assoc<T>(x: seq<T>, y: seq<T>, z: seq<T>)
    ensures x + (y + z) == x + y + z
  {
  }

  /** ASCII lower-casing, as `std::transform(..., ::tolower)` does. */
  function LowerChar(c: char): char
  {
    if 'A' <= c <= 'Z' then (c as int + 32) as char else c
  }

  function Lower(s: string): (r: string)
    ensures |r| == |s|
    ensures forall i :: 0 <= i < |s| ==> r[i] == LowerChar(s[i])
  {
    if |s| == 0 then [] else [LowerChar(s[0])] + Lower(s[1..])
  }

  /** A subset is no larger than its superset. */
  lemma SubsetCard<T>(s: set<T>, t: set<T>)
    requires s <= t
    ensures |s| <= |t|
  {
    assert t == s + (t - s);
  }
}
