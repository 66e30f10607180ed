// The autograder's edge record (`Edge` in the autograder's graph module): patching and
// the time-of-day traversal time `get_cross_time`, which works in seconds over
// slots of 900 s and, unlike the C++ version, wraps round a profile of any
// length and skips slots whose speed is not positive.
module GraderEdge {
  import opened Common
  import opened RealArith

  const SLOT_SECONDS: real := 900.0

  datatype PyEdge = PyEdge(id: int, u: int, v: int, length: real, averageTime: real,
                           speedProfile: seq<real>, oneWay: bool, roadType: string,
                           disabled: bool)

  /** `apply_patch`: a key is applied only when it names an attribute. The
      attribute is `one_way`, so the key `oneway` changes nothing. */
  function ApplyPatch(e: PyEdge, p: Patch): (r: PyEdge)
    ensures r.length == (if p.length.Some? then p.length.value else e.length)
    ensures r.averageTime == (if p.averageTime.Some? then p.averageTime.value else e.averageTime)
    ensures r.speedProfile == (if p.speedProfile.Some? then p.speedProfile.value else e.speedProfile)
    ensures r.roadType == (if p.roadType.Some? then p.roadType.value else e.roadType)
    ensures r.id == e.id && r.u == e.u && r.v == e.v && r.oneWay == e.oneWay && r.disabled == e.disabled
  {
    var e1 := if p.length.Some? then e.(length := p.length.value) else e;
    var e2 := if p.averageTime.Some? then e1.(averageTime := p.averageTime.value) else e1;
    var e3 := if p.speedProfile.Some? then e2.(speedProfile := p.speedProfile.value) else e2;
    if p.roadType.Some? then e3.(roadType := p.roadType.value) else e3
  }

  predicate HasPositiveSlot(p: seq<real>)
  {
    exists i :: 0 <= i < |p| && p[i] > 0.0
  }

  /** The slowest positive speed among slots `[0, n)`, or 0 when there is none. */
  function SlowestBelow(p: seq<real>, n: int): (m: real)
    requires 0 <= n <= |p|
    ensures m >= 0.0
    ensures forall i :: 0 <= i < n && p[i] > 0.0 ==> m <= p[i]
    ensures (exists i :: 0 <= i < n && p[i] > 0.0) ==> m > 0.0
  {
    if n == 0 then 0.0
    else
      var r := SlowestBelow(p, n - 1);
      if p[n - 1] > 0.0 && (r == 0.0 || p[n - 1] < r) then p[n - 1] else r
  }

  /** The fastest speed among slots `[0, n)`, or 0 when there is none. */
  function FastestBelow(p: seq<real>, n: int): (m: real)
    requires 0 <= n <= |p|
    ensures forall i :: 0 <= i < n ==> p[i] <= m
  {
    if n == 0 then 0.0
    else
      var r := FastestBelow(p, n - 1);
      if p[n - 1] > r then p[n - 1] else r
  }

  function Slowest(p: seq<real>): real
  {
    SlowestBelow(p, |p|)
  }

  function Fastest(p: seq<real>): real
  {
    FastestBelow(p, |p|)
  }

  /** What the traversal loop needs to end on a profile: some slot is driven
      at a positive speed (otherwise the loop of the source never ends). */
  predicate Drivable(e: PyEdge)
  {
    |e.speedProfile| > 0 && HasPositiveSlot(e.speedProfile)
  }

  /** The number of consecutive non-positive slots from absolute slot `j`,
      looking at most `d` slots ahead. */
  function ZeroRun(p: seq<real>, j: int, d: nat): (r: nat)
    requires |p| > 0
    ensures r <= d
    decreases d
  {
    if d == 0 || p[j % |p|] > 0.0 then 0 else 1 + ZeroRun(p, j + 1, d - 1)
  }

  lemma {:induction false} ZeroRunStops(p: seq<real>, j: int, d: nat, t: nat)
    requires |p| > 0 && t < d && p[(j + t) % |p|] > 0.0
    ensures ZeroRun(p, j, d) <= t
    decreases t
  {
    if t > 0 && p[j % |p|] <= 0.0 {
      assert (j + 1) + (t - 1) == j + t;
      ZeroRunStops(p, j + 1, d - 1, t - 1);
    }
  }

  lemma {:induction false} ZeroRunExtend(p: seq<real>, j: int, d: nat)
    requires |p| > 0 && ZeroRun(p, j, d) < d
    ensures ZeroRun(p, j, d + 1) == ZeroRun(p, j, d)
    decreases d
  {
    if p[j % |p|] <= 0.0 {
      ZeroRunExtend(p, j + 1, d - 1);
    }
  }

  /** The remainder is the unique `r` in `[0, n)` with `x == q n + r`. */
  lemma ModUnique(x: int, n: int, q: int, r: int)
    requires n > 0 && 0 <= r < n && x == q * n + r
    ensures x % n == r
  {
    var d := q - x / n;
    assert d * n == x % n - r;
    assert -n < d * n < n;
    assert d == 0;
  }

  /** How many slots ahead of absolute slot `j` the slot `r` comes next. */
  lemma SlotsAhead(n: int, j: int, r: int) returns (t: nat)
    requires n > 0 && 0 <= r < n
    ensures t < n && (j + t) % n == r
    ensures t == 0 <==> j % n == r
  {
    var a := j % n;
    t := if r >= a then r - a else r - a + n;
    ModUnique(j + t, n, if r >= a then j / n else j / n + 1, r);
  }

  /** Skipping a slot that cannot be driven brings the next drivable one a
      slot closer. */
  lemma ZeroRunDrops(p: seq<real>, j: int)
    requires |p| > 0 && HasPositiveSlot(p) && p[j % |p|] <= 0.0
    ensures ZeroRun(p, j + 1, |p|) < ZeroRun(p, j, |p|)
  {
    var n := |p|;
    var r :| 0 <= r < n && p[r] > 0.0;
    var t := SlotsAhead(n, j, r);
    assert (j + 1) + (t - 1) == j + t;
    ZeroRunStops(p, j + 1, n - 1, t - 1);
    ZeroRunExtend(p, j + 1, n - 1);
    assert ZeroRun(p, j, n) == 1 + ZeroRun(p, j + 1, n - 1);
  }

  /** Every positive slot speed lies between the slowest and the fastest. */
  lemma SpeedRange(p: seq<real>, s: int)
    requires 0 <= s < |p| && p[s] > 0.0
    ensures 0.0 < Slowest(p) <= p[s] <= Fastest(p)
  {
  }

  /** `secs` seconds at the slowest positive speed cover at most `dist`
      metres, and at the fastest speed at least `dist` metres. */
  predicate Covers(p: seq<real>, secs: real, dist: real)
  {
    Slowest(p) * secs <= dist <= Fastest(p) * secs
  }

  /** A drivable slot that does not finish the edge lowers the measure. */
  lemma SlotDrop(p: seq<real>, s: int, off: real, rem: real, dp: real)
    requires 0 <= s < |p| && p[s] > 0.0 && 0.0 <= off < SLOT_SECONDS
    requires dp == Reach(p[s], off) && dp < rem
    ensures SlotsLeft(rem - dp, 0.0, Slowest(p) * SLOT_SECONDS, true)
            < SlotsLeft(rem, 0.0, Slowest(p) * SLOT_SECONDS, off == 0.0)
  {
    var full := Slowest(p) * SLOT_SECONDS;
    SpeedRange(p, s);
    PosMul(p[s], SLOT_SECONDS - off);
    PosMul(Slowest(p), SLOT_SECONDS);
    MulMono(Slowest(p), p[s], SLOT_SECONDS);
    assert 0.0 < dp < rem - 0.0 && full > 0.0;
    assert off == 0.0 ==> dp == p[s] * SLOT_SECONDS;
    SlotsLeftDrop(rem, p[s] * (SLOT_SECONDS - off), 0.0, Slowest(p) * SLOT_SECONDS, off == 0.0);
  }

  function SlotIdx(p: seq<real>, k: int): (i: int)
    requires |p| > 0
    ensures 0 <= i < |p|
  {
    k % |p|
  }

  function Reach(sp: real, off: real): real
  {
    sp * (SLOT_SECONDS - off)
  }

  /** Seconds the edge needs to cover the remaining `rem` metres starting
      `off` seconds into absolute slot `k` (the clock reads `900 k + off`),
      with the slot index taken from the absolute slot. */
  function CrossFrom(e: PyEdge, k: int, off: real, rem: real): (t: real)
    requires Drivable(e) && 0.0 <= off < SLOT_SECONDS
    ensures t >= 0.0
    ensures rem <= 0.0 ==> t == 0.0
    decreases SlotsLeft(rem, 0.0, Slowest(e.speedProfile) * SLOT_SECONDS, off == 0.0),
              ZeroRun(e.speedProfile, k, |e.speedProfile|)
  {
    var p := e.speedProfile;
    if rem <= 0.0 then 0.0
    else
      var sp := p[SlotIdx(p, k)];
      if sp <= 0.0 then
        ZeroRunDrops(p, k);
        CrossFrom(e, k + 1, 0.0, rem)
      else
        if Reach(sp, off) >= rem then rem / sp
        else
          SlotDrop(p, SlotIdx(p, k), off, rem, Reach(sp, off));
          (SLOT_SECONDS - off) + CrossFrom(e, k + 1, 0.0, rem - Reach(sp, off))
  }

  /** The profile the traversal needs: some slot is drivable whenever there
      is distance to cover (otherwise the loop of the source never ends). */
  predicate CrossOk(e: PyEdge)
  {
    |e.speedProfile| > 0 && e.length > 0.0 ==> Drivable(e)
  }

  /** `get_cross_time` (with the slot boundary taken from the absolute slot),
      departing at `start` seconds. */
  function CrossTime(e: PyEdge, start: real): real
    requires CrossOk(e)
  {
    if |e.speedProfile| == 0 then e.averageTime
    else if e.length <= 0.0 then 0.0
    else
      var k := (start / SLOT_SECONDS).Floor;
      CrossFrom(e, k, start - SLOT_SECONDS * (k as real), e.length)
  }

  /** A clock reading `900 k + off` is `off` seconds into absolute slot `k`. */
  lemma PyDecompose(k: int, off: real)
    requires 0.0 <= off < SLOT_SECONDS
    ensures ((SLOT_SECONDS * (k as real) + off) / SLOT_SECONDS).Floor == k
  {
    var t := SLOT_SECONDS * (k as real) + off;
    assert t / SLOT_SECONDS == (k as real) + off / SLOT_SECONDS;
  }

  /** The seconds to the end of absolute slot `slot` and the metres driven
      in them at `speedPerSec`. */
  method SlotStep(speedPerSec: real, currentTime: real, slot: int, ghost off: real)
    returns (timeToNextSlot: real, distancePossible: real)
    requires currentTime == SLOT_SECONDS * (slot as real) + off
    ensures timeToNextSlot == SLOT_SECONDS - off
    ensures distancePossible == Reach(speedPerSec, off)
  {
    timeToNextSlot := ((slot + 1) as real) * SLOT_SECONDS - currentTime;
    distancePossible := speedPerSec * timeToNextSlot;
  }

  /** `get_cross_time` corrected: the slot boundary is taken from the
      absolute slot `current_time // 900`, while the slot index still wraps
      round the profile. The code as written takes the boundary from the
      wrapped index (`CrossAsWritten`). The two agree until the clock passes
      the end of the profile. */
  method GetCrossTime(e: PyEdge, startTime: real) returns (r: real)
    requires CrossOk(e)
    ensures r == CrossTime(e, startTime)
  {
    if |e.speedProfile| == 0 {
      return e.averageTime;
    }
    var totalDistance := e.length;
    var distanceCovered := 0.0;
    var timeElapsed := 0.0;
    var currentTime := startTime;
    ghost var k: int := (startTime / SLOT_SECONDS).Floor;
    ghost var off := startTime - SLOT_SECONDS * (k as real);
    ghost var goal := CrossTime(e, startTime);
    while distanceCovered < totalDistance
      invariant 0.0 <= off < SLOT_SECONDS && currentTime == SLOT_SECONDS * (k as real) + off
      invariant totalDistance <= 0.0 ==> distanceCovered == 0.0 && timeElapsed == 0.0
      invariant totalDistance > 0.0 ==> timeElapsed + CrossFrom(e, k, off, totalDistance - distanceCovered) == goal
      decreases CrossLeft(e.speedProfile, totalDistance - distanceCovered, off), ZeroRun(e.speedProfile, k, |e.speedProfile|)
    {
      distanceCovered, timeElapsed, currentTime, k, off := CrossSlot(e, distanceCovered, timeElapsed, currentTime, k, off);
    }
    r := timeElapsed;
  }

  /** The loop's termination measure: the slots still to enter, plus one
      while distance is left. */
  function CrossLeft(p: seq<real>, rem: real, off: real): nat
  {
    SlotsLeft(rem, 0.0, Slowest(p) * SLOT_SECONDS, off == 0.0) + (if rem > 0.0 then 1 else 0)
  }

  /** One round of the `while distance_covered < total_distance` loop: skip
      a slot without speed, finish the edge in the current slot (which leaves
      nothing to cover, so the loop ends as the `break` ends it), or drive to
      the slot's end. The time still to spend shrinks by exactly what is
      added to the time elapsed. */
  method CrossSlot(e: PyEdge, distanceCovered: real, timeElapsed: real, currentTime: real, ghost k: int, ghost off: real)
    returns (covered': real, elapsed': real, time': real, ghost k': int, ghost off': real)
    requires Drivable(e) && 0.0 <= off < SLOT_SECONDS && currentTime == SLOT_SECONDS * (k as real) + off
    requires distanceCovered < e.length
    ensures 0.0 <= off' < SLOT_SECONDS && time' == SLOT_SECONDS * (k' as real) + off'
    ensures elapsed' + CrossFrom(e, k', off', e.length - covered') == timeElapsed + CrossFrom(e, k, off, e.length - distanceCovered)
    ensures CrossLeft(e.speedProfile, e.length - covered', off') < CrossLeft(e.speedProfile, e.length - distanceCovered, off)
            || (CrossLeft(e.speedProfile, e.length - covered', off') == CrossLeft(e.speedProfile, e.length - distanceCovered, off)
                && ZeroRun(e.speedProfile, k', |e.speedProfile|) < ZeroRun(e.speedProfile, k, |e.speedProfile|))
  {
    PyDecompose(k, off);
    var slotCount := |e.speedProfile|;
    var slot := (currentTime / SLOT_SECONDS).Floor;
    var slotIndex := slot % slotCount;
    var speedPerSec := e.speedProfile[slotIndex];
    assert slot == k && slotIndex == SlotIdx(e.speedProfile, k);
    var remainingDistance := e.length - distanceCovered;
    if speedPerSec <= 0.0 {
      ZeroRunDrops(e.speedProfile, k);
      CrossFromSkip(e, k, off, remainingDistance);
      covered', elapsed', time' := distanceCovered, timeElapsed, ((slot + 1) as real) * SLOT_SECONDS;
      k', off' := k + 1, 0.0;
    } else {
      var timeToNextSlot, distancePossible := SlotStep(speedPerSec, currentTime, slot, off);
      if distancePossible >= remainingDistance {
        CrossFromFinish(e, k, off, remainingDistance);
        var timeNeeded := remainingDistance / speedPerSec;
        covered', elapsed', time' := distanceCovered + remainingDistance, timeElapsed + timeNeeded, currentTime;
        k', off' := k, off;
      } else {
        SlotDrop(e.speedProfile, slotIndex, off, remainingDistance, distancePossible);
        CrossFromStep(e, k, off, remainingDistance, distancePossible);
        covered', elapsed', time' := distanceCovered + distancePossible, timeElapsed + timeToNextSlot,
                                     currentTime + timeToNextSlot;
        assert e.length - covered' == remainingDistance - distancePossible;
        k', off' := k + 1, 0.0;
      }
    }
  }

  /** A slot whose speed is not positive is skipped. */
  lemma CrossFromSkip(e: PyEdge, k: int, off: real, rem: real)
    requires Drivable(e) && 0.0 <= off < SLOT_SECONDS && rem > 0.0
    requires e.speedProfile[SlotIdx(e.speedProfile, k)] <= 0.0
    ensures CrossFrom(e, k, off, rem) == CrossFrom(e, k + 1, 0.0, rem)
  {
  }

  /** A slot that can cover the rest of the edge finishes it. */
  lemma CrossFromFinish(e: PyEdge, k: int, off: real, rem: real)
    requires Drivable(e) && 0.0 <= off < SLOT_SECONDS && rem > 0.0
    requires e.speedProfile[SlotIdx(e.speedProfile, k)] > 0.0
    requires Reach(e.speedProfile[SlotIdx(e.speedProfile, k)], off) >= rem
    ensures CrossFrom(e, k, off, rem) == rem / e.speedProfile[SlotIdx(e.speedProfile, k)]
  {
  }

  lemma CrossFromStep(e: PyEdge, k: int, off: real, rem: real, dp: real)
    requires Drivable(e) && 0.0 <= off < SLOT_SECONDS && rem > 0.0
    requires e.speedProfile[SlotIdx(e.speedProfile, k)] > 0.0
    requires dp == Reach(e.speedProfile[SlotIdx(e.speedProfile, k)], off) && dp < rem
    ensures CrossFrom(e, k, off, rem) == (SLOT_SECONDS - off) + CrossFrom(e, k + 1, 0.0, rem - dp)
  {
  }

  lemma PyFinishCase(p: seq<real>, s: int, rem: real)
    requires 0 <= s < |p| && p[s] > 0.0 && rem > 0.0
    ensures Covers(p, rem / p[s], rem)
  {
    SpeedRange(p, s);
    assert p[s] * (rem / p[s]) == rem;
    MulMono(Slowest(p), p[s], rem / p[s]);
    MulMono(p[s], Fastest(p), rem / p[s]);
  }

  lemma PySlotCase(p: seq<real>, s: int, off: real, dp: real, rem: real, m': real)
    requires 0 <= s < |p| && p[s] > 0.0 && 0.0 <= off < SLOT_SECONDS && dp == Reach(p[s], off)
    requires Covers(p, m', rem - dp)
    ensures Covers(p, (SLOT_SECONDS - off) + m', rem)
  {
    var left := SLOT_SECONDS - off;
    SpeedRange(p, s);
    MulMono(Slowest(p), p[s], left);
    MulMono(p[s], Fastest(p), left);
    assert Slowest(p) * (left + m') == Slowest(p) * left + Slowest(p) * m';
    assert Fastest(p) * (left + m') == Fastest(p) * left + Fastest(p) * m';
  }

  /** The edge is fully driven: the time spent in drivable slots, at the
      slowest and at the fastest positive speed, brackets the distance. */
  lemma {:induction false} CrossFromCovers(e: PyEdge, k: int, off: real, rem: real)
    requires Drivable(e) && 0.0 <= off < SLOT_SECONDS && rem > 0.0
    ensures Covers(e.speedProfile, CrossFrom(e, k, off, rem), rem)
    decreases SlotsLeft(rem, 0.0, Slowest(e.speedProfile) * SLOT_SECONDS, off == 0.0),
              ZeroRun(e.speedProfile, k, |e.speedProfile|)
  {
    var p := e.speedProfile;
    var sp := p[SlotIdx(p, k)];
    if sp <= 0.0 {
      ZeroRunDrops(p, k);
      CrossFromCovers(e, k + 1, 0.0, rem);
      CrossFromSkip(e, k, off, rem);
    } else {
      var dp := Reach(sp, off);
      if dp >= rem {
        PyFinishCase(p, SlotIdx(p, k), rem);
        CrossFromFinish(e, k, off, rem);
      } else {
        CrossFromStep(e, k, off, rem, dp);
        SlotDrop(p, SlotIdx(p, k), off, rem, dp);
        CrossFromCovers(e, k + 1, 0.0, rem - dp);
        PySlotCase(p, SlotIdx(p, k), off, dp, rem, CrossFrom(e, k + 1, 0.0, rem - dp));
      }
    }
  }

  /** What `get_cross_time` promises: the average time without a profile;
      otherwise non-negative seconds, zero for a non-positive length, during
      which the slowest positive slot speed covers at most, and the fastest
      at least, the edge's length. */
  lemma CrossTimeSpec(e: PyEdge, start: real)
    requires CrossOk(e)
    ensures |e.speedProfile| == 0 ==> CrossTime(e, start) == e.averageTime
    ensures |e.speedProfile| > 0 ==> CrossTime(e, start) >= 0.0
    ensures |e.speedProfile| > 0 && e.length <= 0.0 ==> CrossTime(e, start) == 0.0
    ensures |e.speedProfile| > 0 && e.length > 0.0 ==> Covers(e.speedProfile, CrossTime(e, start), e.length)
  {
    if |e.speedProfile| > 0 && e.length > 0.0 {
      var k := (start / SLOT_SECONDS).Floor;
      CrossFromCovers(e, k, start - SLOT_SECONDS * (k as real), e.length);
    }
  }

  /** `get_cross_time` as written: the slot index is taken modulo the profile
      length, and both the skip of a stopped slot and the step to the next
      slot are measured from that index rather than from the absolute slot.
      Once the clock passes the end of the profile the step is negative. The
      loop need not end, so the model stops after `fuel` passes (`None`). */
  function CrossAsWritten(e: PyEdge, covered: real, elapsed: real, cur: real, fuel: nat): (r: Option<real>)
    requires |e.speedProfile| > 0
    ensures covered >= e.length ==> r == Some(elapsed)
    decreases fuel
  {
    if !(covered < e.length) then Some(elapsed)
    else if fuel == 0 then None
    else
      match PassAsWritten(e.speedProfile, e.length - covered, cur)
      case Skip(next) => CrossAsWritten(e, covered, elapsed, next, fuel - 1)
      case Finish(needed) => Some(elapsed + needed)
      case Drive(distance, spent) => CrossAsWritten(e, covered + distance, elapsed + spent, cur + spent, fuel - 1)
  }

  /** What one pass of the loop as written does at clock `cur`. */
  datatype Pass = Skip(next: real) | Finish(needed: real) | Drive(distance: real, spent: real)

  /** One pass of the loop body as written, with `remaining` metres left:
      a stopped slot moves the clock to the end of the wrapped slot index,
      otherwise the edge is finished in this slot or driven to that end. */
  function PassAsWritten(p: seq<real>, remaining: real, cur: real): (r: Pass)
    requires |p| > 0
    ensures r.Drive? ==> r.distance < remaining
  {
    var slotIndex := (cur / SLOT_SECONDS).Floor % |p|;
    var speedPerSec := p[slotIndex];
    if speedPerSec <= 0.0 then Skip(((slotIndex + 1) as real) * SLOT_SECONDS)
    else
      var timeToNextSlot := ((slotIndex + 1) as real) * SLOT_SECONDS - cur;
      var distancePossible := speedPerSec * timeToNextSlot;
      if distancePossible >= remaining then Finish(remaining / speedPerSec)
      else Drive(distancePossible, timeToNextSlot)
  }

  /** Before the clock passes the end of the profile the wrapped slot index
      is the absolute slot, so each pass as written steps to the same
      boundary as the corrected loop. */
  lemma AsWrittenSlotAgrees(p: seq<real>, cur: real)
    requires |p| > 0 && 0.0 <= cur < (|p| as real) * SLOT_SECONDS
    ensures (cur / SLOT_SECONDS).Floor % |p| == (cur / SLOT_SECONDS).Floor
  {
    var k := (cur / SLOT_SECONDS).Floor;
    assert cur / SLOT_SECONDS < |p| as real;
    assert 0 <= k < |p|;
  }

  function GetCrossTimeAsWritten(e: PyEdge, startTime: real, fuel: nat): (r: Option<real>)
    ensures |e.speedProfile| == 0 ==> r == Some(e.averageTime)
  {
    if |e.speedProfile| == 0 then Some(e.averageTime)
    else CrossAsWritten(e, 0.0, 0.0, startTime, fuel)
  }

  /** The absolute slot in which the corrected crossing ends: the slot of
      the pass that covers the last metre. */
  function FinishSlot(e: PyEdge, k: int, off: real, rem: real): (f: int)
    requires Drivable(e) && 0.0 <= off < SLOT_SECONDS
    ensures f >= k
    decreases SlotsLeft(rem, 0.0, Slowest(e.speedProfile) * SLOT_SECONDS, off == 0.0),
              ZeroRun(e.speedProfile, k, |e.speedProfile|)
  {
    var p := e.speedProfile;
    if rem <= 0.0 then k
    else
      var sp := p[SlotIdx(p, k)];
      if sp <= 0.0 then
        ZeroRunDrops(p, k);
        FinishSlot(e, k + 1, 0.0, rem)
      else if Reach(sp, off) >= rem then k
      else
        SlotDrop(p, SlotIdx(p, k), off, rem, Reach(sp, off));
        FinishSlot(e, k + 1, 0.0, rem - Reach(sp, off))
  }

  /** The crossing from `start` ends within the first lap of the profile:
      the clock never reaches `slot_count · 900` s with distance left. */
  predicate WithinLap(e: PyEdge, start: real)
    requires CrossOk(e)
  {
    |e.speedProfile| == 0 || e.length <= 0.0
    || FinishSlot(e, (start / SLOT_SECONDS).Floor, start - SLOT_SECONDS * ((start / SLOT_SECONDS).Floor as real), e.length)
       < |e.speedProfile|
  }

  /** From absolute slot `k` of the first lap, the loop as written makes the
      same passes as the corrected one, so with one pass of fuel per slot
      left in the lap it returns the corrected time. */
  lemma {:induction false} AsWrittenFrom(e: PyEdge, covered: real, elapsed: real, cur: real, k: int, off: real, fuel: nat)
    requires Drivable(e) && 0 <= k && 0.0 <= off < SLOT_SECONDS && cur == SLOT_SECONDS * (k as real) + off
    requires FinishSlot(e, k, off, e.length - covered) < |e.speedProfile| <= k + fuel
    ensures CrossAsWritten(e, covered, elapsed, cur, fuel) == Some(elapsed + CrossFrom(e, k, off, e.length - covered))
    decreases fuel
  {
    var p := e.speedProfile;
    var rem := e.length - covered;
    if covered < e.length {
      FirstLapSlot(p, k, off, cur);
      var sp := p[k];
      if sp <= 0.0 {
        AsWrittenSkip(e, covered, elapsed, cur, k, off, fuel);
        AsWrittenFrom(e, covered, elapsed, SLOT_SECONDS * ((k + 1) as real) + 0.0, k + 1, 0.0, fuel - 1);
      } else if Reach(sp, off) >= rem {
        AsWrittenFinish(e, covered, elapsed, cur, k, off, fuel);
      } else {
        AsWrittenDrive(e, covered, elapsed, cur, k, off, fuel);
        AsWrittenFrom(e, covered + Reach(sp, off), elapsed + (SLOT_SECONDS - off), SLOT_SECONDS * ((k + 1) as real) + 0.0,
                      k + 1, 0.0, fuel - 1);
      }
    }
  }

  /** A pass in a stopped slot of the first lap, as written and corrected. */
  lemma AsWrittenSkip(e: PyEdge, covered: real, elapsed: real, cur: real, k: int, off: real, fuel: nat)
    requires Drivable(e) && 0 <= k && 0.0 <= off < SLOT_SECONDS && cur == SLOT_SECONDS * (k as real) + off
    requires covered < e.length && fuel > 0
    requires (cur / SLOT_SECONDS).Floor % |e.speedProfile| == k == SlotIdx(e.speedProfile, k) && e.speedProfile[k] <= 0.0
    ensures CrossAsWritten(e, covered, elapsed, cur, fuel)
         == CrossAsWritten(e, covered, elapsed, SLOT_SECONDS * ((k + 1) as real) + 0.0, fuel - 1)
    ensures CrossFrom(e, k, off, e.length - covered) == CrossFrom(e, k + 1, 0.0, e.length - covered)
    ensures FinishSlot(e, k, off, e.length - covered) == FinishSlot(e, k + 1, 0.0, e.length - covered)
  {
    assert PassAsWritten(e.speedProfile, e.length - covered, cur) == Skip(SLOT_SECONDS * ((k + 1) as real) + 0.0);
  }

  /** A pass of the first lap that finishes the edge, as written and corrected. */
  lemma AsWrittenFinish(e: PyEdge, covered: real, elapsed: real, cur: real, k: int, off: real, fuel: nat)
    requires Drivable(e) && 0 <= k && 0.0 <= off < SLOT_SECONDS && cur == SLOT_SECONDS * (k as real) + off
    requires covered < e.length && fuel > 0
    requires (cur / SLOT_SECONDS).Floor % |e.speedProfile| == k == SlotIdx(e.speedProfile, k) && e.speedProfile[k] > 0.0
    requires Reach(e.speedProfile[k], off) >= e.length - covered
    ensures CrossAsWritten(e, covered, elapsed, cur, fuel) == Some(elapsed + CrossFrom(e, k, off, e.length - covered))
  {
    var sp := e.speedProfile[k];
    assert sp * (((k + 1) as real) * SLOT_SECONDS - cur) == Reach(sp, off);
    assert PassAsWritten(e.speedProfile, e.length - covered, cur) == Finish((e.length - covered) / sp);
  }

  /** A pass of the first lap that drives to the end of the slot, as
      written and corrected. */
  lemma AsWrittenDrive(e: PyEdge, covered: real, elapsed: real, cur: real, k: int, off: real, fuel: nat)
    requires Drivable(e) && 0 <= k && 0.0 <= off < SLOT_SECONDS && cur == SLOT_SECONDS * (k as real) + off
    requires covered < e.length && fuel > 0
    requires (cur / SLOT_SECONDS).Floor % |e.speedProfile| == k == SlotIdx(e.speedProfile, k) && e.speedProfile[k] > 0.0
    requires Reach(e.speedProfile[k], off) < e.length - covered
    ensures CrossAsWritten(e, covered, elapsed, cur, fuel)
         == CrossAsWritten(e, covered + Reach(e.speedProfile[k], off), elapsed + (SLOT_SECONDS - off),
                           SLOT_SECONDS * ((k + 1) as real) + 0.0, fuel - 1)
    ensures CrossFrom(e, k, off, e.length - covered)
         == (SLOT_SECONDS - off) + CrossFrom(e, k + 1, 0.0, e.length - (covered + Reach(e.speedProfile[k], off)))
    ensures FinishSlot(e, k, off, e.length - covered)
         == FinishSlot(e, k + 1, 0.0, e.length - (covered + Reach(e.speedProfile[k], off)))
  {
    var sp := e.speedProfile[k];
    var dt := ((k + 1) as real) * SLOT_SECONDS - cur;
    assert dt == SLOT_SECONDS - off && cur + dt == SLOT_SECONDS * ((k + 1) as real) + 0.0;
    assert sp * dt == Reach(sp, off);
    assert PassAsWritten(e.speedProfile, e.length - covered, cur) == Drive(Reach(sp, off), dt);
    assert e.length - (covered + Reach(sp, off)) == (e.length - covered) - Reach(sp, off);
  }

  /** In the first lap the wrapped slot index is the absolute slot. */
  lemma FirstLapSlot(p: seq<real>, k: int, off: real, cur: real)
    requires 0 <= k < |p| && 0.0 <= off < SLOT_SECONDS && cur == SLOT_SECONDS * (k as real) + off
    ensures (cur / SLOT_SECONDS).Floor % |p| == k == SlotIdx(p, k)
  {
    PyDecompose(k, off);
  }

  /** The code as written agrees with the corrected `get_cross_time` at
      every non-negative departure whose crossing ends within the first lap
      of the profile, given one pass of fuel per slot. */
  lemma AsWrittenWithinLap(e: PyEdge, startTime: real, fuel: nat)
    requires CrossOk(e) && 0.0 <= startTime && WithinLap(e, startTime) && |e.speedProfile| <= fuel
    ensures GetCrossTimeAsWritten(e, startTime, fuel) == Some(CrossTime(e, startTime))
  {
    if |e.speedProfile| > 0 && e.length > 0.0 {
      var k := (startTime / SLOT_SECONDS).Floor;
      var off := startTime - SLOT_SECONDS * (k as real);
      assert 0 <= k;
      AsWrittenFrom(e, 0.0, 0.0, startTime, k, off, fuel);
    }
  }

  /** A 10 km edge with the two-slot profile [1, 10] m/s entered at 900 s: the
      code as written drives slot 1 to 1800 s, then steps back 900 s and
      reports 190 s, too short for even the fastest slot to cover the edge;
      measured from the absolute slot the crossing takes 1810 s. */
  lemma NegativeStepExample()
    ensures var e := PyEdge(0, 0, 1, 10000.0, 0.0, [1.0, 10.0], false, "local", false);
            GetCrossTimeAsWritten(e, 900.0, 3) == Some(190.0)
            && !Covers(e.speedProfile, 190.0, e.length)
            && CrossTime(e, 900.0) == 1810.0
            && Covers(e.speedProfile, CrossTime(e, 900.0), e.length)
  {
    NegativeStepAsWritten();
    NegativeStepCorrected();
  }

  lemma NegativeStepAsWritten()
    ensures var e := PyEdge(0, 0, 1, 10000.0, 0.0, [1.0, 10.0], false, "local", false);
            GetCrossTimeAsWritten(e, 900.0, 3) == Some(190.0) && !Covers(e.speedProfile, 190.0, e.length)
  {
    AsWrittenRun();
    TooShort();
  }

  lemma AsWrittenRun()
    ensures var e := PyEdge(0, 0, 1, 10000.0, 0.0, [1.0, 10.0], false, "local", false);
            GetCrossTimeAsWritten(e, 900.0, 3) == Some(190.0)
  {
    var e := PyEdge(0, 0, 1, 10000.0, 0.0, [1.0, 10.0], false, "local", false);
    var p := e.speedProfile;
    assert (900.0 / SLOT_SECONDS).Floor == 1 && (1800.0 / SLOT_SECONDS).Floor == 2;
    assert (1800.0 / SLOT_SECONDS).Floor % |p| == 0;
    assert CrossAsWritten(e, 8100.0, 0.0, 900.0, 1) == Some(190.0);
    assert CrossAsWritten(e, 9000.0, 900.0, 1800.0, 2) == CrossAsWritten(e, 8100.0, 0.0, 900.0, 1);
    assert CrossAsWritten(e, 0.0, 0.0, 900.0, 3) == CrossAsWritten(e, 9000.0, 900.0, 1800.0, 2);
  }

  lemma TooShort()
    ensures var e := PyEdge(0, 0, 1, 10000.0, 0.0, [1.0, 10.0], false, "local", false);
            !Covers(e.speedProfile, 190.0, e.length)
  {
    var p := [1.0, 10.0];
    assert p[1] > 0.0;
    assert SlowestBelow(p, 1) == 1.0 && FastestBelow(p, 1) == 1.0;
    assert Slowest(p) == 1.0 && Fastest(p) == 10.0;
  }

  lemma NegativeStepCorrected()
    ensures var e := PyEdge(0, 0, 1, 10000.0, 0.0, [1.0, 10.0], false, "local", false);
            e.speedProfile[1] > 0.0 && Drivable(e)
            && CrossTime(e, 900.0) == 1810.0 && Covers(e.speedProfile, CrossTime(e, 900.0), e.length)
  {
    var e := PyEdge(0, 0, 1, 10000.0, 0.0, [1.0, 10.0], false, "local", false);
    var p := e.speedProfile;
    assert p[1] > 0.0;
    assert Drivable(e);
    assert (900.0 / SLOT_SECONDS).Floor == 1;
    assert SlotIdx(p, 1) == 1 && SlotIdx(p, 2) == 0 && SlotIdx(p, 3) == 1;
    CrossFromStep(e, 1, 0.0, 10000.0, 9000.0);
    CrossFromStep(e, 2, 0.0, 1000.0, 900.0);
    CrossFromFinish(e, 3, 0.0, 100.0);
    CrossTimeSpec(e, 900.0);
  }
}
