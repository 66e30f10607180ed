// Phase-1 traversal time of an edge under a time-of-day speed profile
// (`compute_time_with_profile`): the day is cut into 96 slots of 15 minutes,
// each slot has its own speed, and the edge is driven slot by slot from the
// departure time until its whole length is covered.
module CppCost {
  import opened Common
  import opened RealArith

  const EPS: real := 0.000001
  const SLOT_MINUTES: real := 15.0
  const DAY_SLOTS: int := 96

  /** What the traversal needs of its edge: a profile, when there is one,
      covers the 96 slots of a day (the slot index always lies in [0, 96)),
      and the average time, used for the fallback speed, is positive. */
  predicate ProfileOk(e: Edge)
  {
    |e.speedProfile| == 0 || (|e.speedProfile| >= DAY_SLOTS && e.averageTime > 0.0)
  }

  /** `floor(t / 15) % 96` for a non-negative time in minutes. */
  function SlotOf(t: real): (s: int)
    requires t >= 0.0
    ensures 0 <= s < DAY_SLOTS
  {
    (t / SLOT_MINUTES).Floor % DAY_SLOTS
  }

  /** `fmod(t, 15)` for a non-negative time. */
  function SlotElapsed(t: real): (r: real)
    requires t >= 0.0
    ensures 0.0 <= r < SLOT_MINUTES
  {
    t - SLOT_MINUTES * ((t / SLOT_MINUTES).Floor as real)
  }

  /** The speed used in a slot: the profile entry, or `length / average_time`
      when the entry is at most 1e-6. */
  function SlotSpeed(e: Edge, s: int): (sp: real)
    requires e.averageTime > 0.0 && 0 <= s < |e.speedProfile|
    ensures e.length > 0.0 ==> sp > 0.0
  {
    if e.speedProfile[s] <= EPS then e.length / e.averageTime else e.speedProfile[s]
  }

  /** Slowest and fastest of the speeds of slots `[0, n)`. */
  function MinSpeedBelow(e: Edge, n: int): (m: real)
    requires e.averageTime > 0.0 && 0 < n <= |e.speedProfile|
    ensures forall s :: 0 <= s < n ==> m <= SlotSpeed(e, s)
    ensures e.length > 0.0 ==> m > 0.0
  {
    if n == 1 then SlotSpeed(e, 0)
    else
      var rest := MinSpeedBelow(e, n - 1);
      if SlotSpeed(e, n - 1) < rest then SlotSpeed(e, n - 1) else rest
  }

  function MaxSpeedBelow(e: Edge, n: int): (m: real)
    requires e.averageTime > 0.0 && 0 < n <= |e.speedProfile|
    ensures forall s :: 0 <= s < n ==> SlotSpeed(e, s) <= m
  {
    if n == 1 then SlotSpeed(e, 0)
    else
      var rest := MaxSpeedBelow(e, n - 1);
      if SlotSpeed(e, n - 1) > rest then SlotSpeed(e, n - 1) else rest
  }

  /** Slowest and fastest speed of the profile. */
  function MinSpeed(e: Edge): real
    requires |e.speedProfile| >= DAY_SLOTS && e.averageTime > 0.0
  {
    MinSpeedBelow(e, |e.speedProfile|)
  }

  function MaxSpeed(e: Edge): real
    requires |e.speedProfile| >= DAY_SLOTS && e.averageTime > 0.0
  {
    MaxSpeedBelow(e, |e.speedProfile|)
  }

  /** Driving the distance left at a speed between `lo` and `hi` brackets it. */
  lemma FinishBound(rem: real, sp: real, lo: real, hi: real)
    requires rem > 0.0 && 0.0 < lo <= sp <= hi
    ensures lo * ((rem / sp) / 60.0 * 60.0) <= rem <= hi * ((rem / sp) / 60.0 * 60.0)
  {
    var t := rem / sp;
    assert (rem / sp) / 60.0 * 60.0 == t;
    assert sp * t == rem;
    MulMono(lo, sp, t);
    MulMono(sp, hi, t);
  }

  /** A slot of `left` minutes followed by `m'` more minutes. */
  lemma StepBound(rem: real, dp: real, left: real, m': real, lo: real, hi: real)
    requires lo * (left * 60.0) <= dp <= hi * (left * 60.0)
    requires lo * (m' * 60.0) <= rem - dp <= hi * (m' * 60.0)
    ensures lo * ((left + m') * 60.0) <= rem <= hi * ((left + m') * 60.0)
  {
    assert lo * ((left + m') * 60.0) == lo * (left * 60.0) + lo * (m' * 60.0);
    assert hi * ((left + m') * 60.0) == hi * (left * 60.0) + hi * (m' * 60.0);
  }

  /** The metres driven in slot `s` when the clock is `off` minutes into it. */
  function SlotDistance(e: Edge, s: int, off: real): real
    requires e.averageTime > 0.0 && 0 <= s < |e.speedProfile|
  {
    SlotSpeed(e, s) * ((SLOT_MINUTES - off) * 60.0)
  }

  /** Every slot speed lies between the slowest and the fastest one. */
  lemma SpeedRange(e: Edge, s: int)
    requires |e.speedProfile| >= DAY_SLOTS && e.averageTime > 0.0 && e.length > 0.0
    requires 0 <= s < DAY_SLOTS
    ensures 0.0 < MinSpeed(e) <= SlotSpeed(e, s) <= MaxSpeed(e)
  {
  }

  lemma SlotDistancePositive(e: Edge, s: int, off: real)
    requires e.averageTime > 0.0 && 0 <= s < |e.speedProfile| && e.length > 0.0
    requires 0.0 <= off < SLOT_MINUTES
    ensures SlotDistance(e, s, off) > 0.0
  {
    PosMul(SlotSpeed(e, s), (SLOT_MINUTES - off) * 60.0);
  }

  /** `secs` seconds at the slowest slot speed cover at most `dist` metres,
      and at the fastest slot speed at least `dist` metres. */
  predicate Covers(e: Edge, secs: real, dist: real)
    requires |e.speedProfile| >= DAY_SLOTS && e.averageTime > 0.0
  {
    MinSpeed(e) * secs <= dist <= MaxSpeed(e) * secs
  }

  /** The rest of a slot brackets the distance driven in it. */
  lemma SlotBracket(e: Edge, s: int, off: real)
    requires |e.speedProfile| >= DAY_SLOTS && e.averageTime > 0.0 && e.length > 0.0
    requires 0 <= s < DAY_SLOTS && 0.0 <= off < SLOT_MINUTES
    ensures Covers(e, (SLOT_MINUTES - off) * 60.0, SlotDistance(e, s, off))
  {
    SpeedRange(e, s);
    CoversAt(e, (SLOT_MINUTES - off) * 60.0, SlotSpeed(e, s), SlotDistance(e, s, off));
  }

  /** A speed between the slowest and the fastest, held for `secs` seconds. */
  lemma CoversAt(e: Edge, secs: real, sp: real, dist: real)
    requires |e.speedProfile| >= DAY_SLOTS && e.averageTime > 0.0
    requires MinSpeed(e) <= sp <= MaxSpeed(e) && secs >= 0.0 && dist == sp * secs
    ensures Covers(e, secs, dist)
  {
    MulBracket(MinSpeed(e), sp, MaxSpeed(e), secs);
  }

  /** A slot that does not finish the edge lowers the termination measure. */
  lemma SlotDecreases(e: Edge, s: int, off: real, rem: real)
    requires |e.speedProfile| >= DAY_SLOTS && e.averageTime > 0.0 && EPS < rem <= e.length
    requires 0 <= s < DAY_SLOTS && 0.0 <= off < SLOT_MINUTES
    requires SlotDistance(e, s, off) < rem - EPS
    ensures SlotsLeft(rem - SlotDistance(e, s, off), EPS, MinSpeed(e) * 900.0, true)
            < SlotsLeft(rem, EPS, MinSpeed(e) * 900.0, off == 0.0)
  {
    SlotBracket(e, s, off);
    SlotDistancePositive(e, s, off);
    SpeedRange(e, s);
    PosMul(MinSpeed(e), 900.0);
    SlotsLeftDrop(rem, SlotDistance(e, s, off), EPS, MinSpeed(e) * 900.0, off == 0.0);
  }

  /** Minutes needed to drive the remaining distance `rem` starting `off`
      minutes into absolute slot `k` (the clock reads `15 k + off`): the slot
      loop of `compute_time_with_profile` as a function. */
  function Travel(e: Edge, k: nat, off: real, rem: real): (m: real)
    requires |e.speedProfile| >= DAY_SLOTS && e.averageTime > 0.0
    requires 0.0 <= off < SLOT_MINUTES && rem <= e.length
    ensures m >= 0.0
    ensures rem <= EPS ==> m == 0.0
    decreases SlotsLeft(rem, EPS, MinSpeed(e) * 900.0, off == 0.0)
  {
    if rem <= EPS then 0.0
    else
      var dp := SlotDistance(e, k % DAY_SLOTS, off);
      SlotDistancePositive(e, k % DAY_SLOTS, off);
      if dp >= rem - EPS then
        (rem / SlotSpeed(e, k % DAY_SLOTS)) / 60.0
      else
        SlotDecreases(e, k % DAY_SLOTS, off, rem);
        (SLOT_MINUTES - off) + Travel(e, k + 1, 0.0, rem - dp)
  }

  lemma FinishCase(e: Edge, s: int, rem: real)
    requires |e.speedProfile| >= DAY_SLOTS && e.averageTime > 0.0 && EPS < rem <= e.length
    requires 0 <= s < DAY_SLOTS
    ensures Covers(e, (rem / SlotSpeed(e, s)) / 60.0 * 60.0, rem)
  {
    SpeedRange(e, s);
    CoversFinish(e, SlotSpeed(e, s), rem);
  }

  /** Driving the rest at a speed of the profile covers it. */
  lemma CoversFinish(e: Edge, sp: real, rem: real)
    requires |e.speedProfile| >= DAY_SLOTS && e.averageTime > 0.0
    requires rem > 0.0 && 0.0 < MinSpeed(e) <= sp <= MaxSpeed(e)
    ensures Covers(e, (rem / sp) / 60.0 * 60.0, rem)
  {
    FinishBound(rem, sp, MinSpeed(e), MaxSpeed(e));
  }

  lemma SlotCase(e: Edge, s: int, off: real, rem: real, m': real)
    requires |e.speedProfile| >= DAY_SLOTS && e.averageTime > 0.0 && EPS < rem <= e.length
    requires 0 <= s < DAY_SLOTS && 0.0 <= off < SLOT_MINUTES
    requires Covers(e, m' * 60.0, rem - SlotDistance(e, s, off))
    ensures Covers(e, ((SLOT_MINUTES - off) + m') * 60.0, rem)
  {
    SlotBracket(e, s, off);
    CoversStep(e, SLOT_MINUTES - off, m', SlotDistance(e, s, off), rem);
  }

  /** A covered stretch followed by a covered rest covers the whole. */
  lemma CoversStep(e: Edge, left: real, m': real, dp: real, rem: real)
    requires |e.speedProfile| >= DAY_SLOTS && e.averageTime > 0.0
    requires Covers(e, left * 60.0, dp) && Covers(e, m' * 60.0, rem - dp)
    ensures Covers(e, (left + m') * 60.0, rem)
  {
    StepBound(rem, dp, left, m', MinSpeed(e), MaxSpeed(e));
  }

  /** The whole distance is covered: the minutes spent, driven at the slowest
      and at the fastest slot speed, bracket the distance. */
  lemma {:induction false} TravelCovers(e: Edge, k: nat, off: real, rem: real)
    requires |e.speedProfile| >= DAY_SLOTS && e.averageTime > 0.0
    requires 0.0 <= off < SLOT_MINUTES && EPS < rem <= e.length
    ensures Covers(e, Travel(e, k, off, rem) * 60.0, rem)
    decreases SlotsLeft(rem, EPS, MinSpeed(e) * 900.0, off == 0.0)
  {
    var s := k % DAY_SLOTS;
    var dp := SlotDistance(e, s, off);
    if dp >= rem - EPS {
      FinishCase(e, s, rem);
    } else {
      SlotDecreases(e, s, off, rem);
      SlotDistancePositive(e, s, off);
      TravelCovers(e, k + 1, 0.0, rem - dp);
      SlotCase(e, s, off, rem, Travel(e, k + 1, 0.0, rem - dp));
    }
  }

  /** A clock reading `15 k + off` is `off` minutes into slot `k`. */
  lemma Decompose(k: nat, off: real)
    requires 0.0 <= off < SLOT_MINUTES
    ensures ((SLOT_MINUTES * (k as real) + off) / SLOT_MINUTES).Floor == k
    ensures SlotOf(SLOT_MINUTES * (k as real) + off) == k % DAY_SLOTS
    ensures SlotElapsed(SLOT_MINUTES * (k as real) + off) == off
  {
    var t := SLOT_MINUTES * (k as real) + off;
    assert t / SLOT_MINUTES == (k as real) + off / SLOT_MINUTES;
  }

  /** `compute_time_with_profile` in seconds, departing at `start` minutes. */
  function TimeWithProfile(e: Edge, start: real): (r: real)
    requires ProfileOk(e) && start >= 0.0
  {
    if |e.speedProfile| == 0 then e.averageTime
    else Travel(e, (start / SLOT_MINUTES).Floor, SlotElapsed(start), e.length) * 60.0
  }

  /** One slot of the loop: the slot the clock `t` is in, the minutes left in
      it, the speed used there (with the fallback) and the metres that speed
      covers in those minutes. */
  method SlotDrive(e: Edge, t: real) returns (timeLeftInSlot: real, speed: real, distancePossible: real)
    requires |e.speedProfile| >= DAY_SLOTS && e.averageTime > 0.0 && t >= 0.0
    ensures timeLeftInSlot == SLOT_MINUTES - SlotElapsed(t)
    ensures speed == SlotSpeed(e, SlotOf(t))
    ensures distancePossible == SlotDistance(e, SlotOf(t), SlotElapsed(t))
  {
    var slot := SlotOf(t);
    var slotElapsed := SlotElapsed(t);
    timeLeftInSlot := SLOT_MINUTES - slotElapsed;
    speed := e.speedProfile[slot];
    if speed <= EPS {
      var avgSpeed := e.length / e.averageTime;
      speed := avgSpeed;
    }
    distancePossible := speed * (timeLeftInSlot * 60.0);
  }

  /** The loop of `compute_time_with_profile`, proved to compute
      `TimeWithProfile`. */
  method ComputeTimeWithProfile(e: Edge, startTimeMin: real) returns (r: real)
    requires ProfileOk(e) && startTimeMin >= 0.0
    ensures r == TimeWithProfile(e, startTimeMin)
  {
    if |e.speedProfile| == 0 {
      r := e.averageTime;
    } else {
      var remainingDist := e.length;
      var currentTime := startTimeMin;
      var totalTime := 0.0;
      ghost var k: nat := (startTimeMin / SLOT_MINUTES).Floor;
      ghost var off := SlotElapsed(startTimeMin);
      ghost var goal := Travel(e, k, off, e.length);
      while remainingDist > EPS
        invariant 0.0 <= off < SLOT_MINUTES && remainingDist <= e.length
        invariant currentTime == SLOT_MINUTES * (k as real) + off
        invariant totalTime + Travel(e, k, off, remainingDist) == goal
        decreases DriveLeft(e, remainingDist, off)
      {
        remainingDist, currentTime, totalTime, k, off := DriveSlot(e, remainingDist, currentTime, totalTime, k, off);
      }
      r := totalTime * 60.0;
    }
  }

  /** The loop's termination measure: the slots still to enter, plus one
      while distance is left. */
  ghost function DriveLeft(e: Edge, rem: real, off: real): nat
    requires |e.speedProfile| >= DAY_SLOTS && e.averageTime > 0.0
  {
    SlotsLeft(rem, EPS, MinSpeed(e) * 900.0, off == 0.0) + (if rem > EPS then 1 else 0)
  }

  /** One round of the loop of `compute_time_with_profile`: finish the edge
      in the current slot, or drive to the end of the slot. The minutes
      still to drive shrink by exactly what is added to the total. */
  method DriveSlot(e: Edge, remainingDist: real, currentTime: real, totalTime: real, ghost k: nat, ghost off: real)
    returns (rem': real, time': real, total': real, ghost k': nat, ghost off': real)
    requires |e.speedProfile| >= DAY_SLOTS && e.averageTime > 0.0
    requires 0.0 <= off < SLOT_MINUTES && EPS < remainingDist <= e.length
    requires currentTime == SLOT_MINUTES * (k as real) + off
    ensures 0.0 <= off' < SLOT_MINUTES && rem' <= e.length
    ensures time' == SLOT_MINUTES * (k' as real) + off'
    ensures total' + Travel(e, k', off', rem') == totalTime + Travel(e, k, off, remainingDist)
    ensures DriveLeft(e, rem', off') < DriveLeft(e, remainingDist, off)
  {
    Decompose(k, off);
    var timeLeftInSlot, speed, distancePossible := SlotDrive(e, currentTime);
    SlotDistancePositive(e, k % DAY_SLOTS, off);
    if distancePossible >= remainingDist - EPS {
      var timeNeededMin := (remainingDist / speed) / 60.0;
      total' := totalTime + timeNeededMin;
      rem', time', k', off' := 0.0, currentTime, k, off;
    } else {
      SlotDecreases(e, k % DAY_SLOTS, off, remainingDist);
      total' := totalTime + timeLeftInSlot;
      rem' := remainingDist - distancePossible;
      time' := currentTime + timeLeftInSlot;
      k', off' := k + 1, 0.0;
    }
  }

  lemma EdgeCovers(e: Edge, k: nat, off: real)
    requires |e.speedProfile| >= DAY_SLOTS && e.averageTime > 0.0
    requires 0.0 <= off < SLOT_MINUTES && EPS < e.length
    ensures Covers(e, Travel(e, k, off, e.length) * 60.0, e.length)
  {
    TravelCovers(e, k, off, e.length);
  }

  /** What `compute_time_with_profile` promises: the average time without a
      profile; otherwise a non-negative number of seconds, zero for an edge of
      (almost) no length, in which the slowest slot speed covers at most, and
      the fastest at least, the edge's length. */
  lemma TimeWithProfileSpec(e: Edge, start: real)
    requires ProfileOk(e) && start >= 0.0
    ensures |e.speedProfile| == 0 ==> TimeWithProfile(e, start) == e.averageTime
    ensures |e.speedProfile| > 0 ==> TimeWithProfile(e, start) >= 0.0
    ensures |e.speedProfile| > 0 && e.length <= EPS ==> TimeWithProfile(e, start) == 0.0
    ensures |e.speedProfile| > 0 && e.length > EPS ==> Covers(e, TimeWithProfile(e, start), e.length)
  {
    if |e.speedProfile| > 0 && e.length > EPS {
      EdgeCovers(e, (start / SLOT_MINUTES).Floor, SlotElapsed(start));
    }
  }
}
