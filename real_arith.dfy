// Small facts about real arithmetic and the slot-count measure that the two
// time-of-day traversal loops (the C++ one in minutes, the autograder's in seconds)
// use to terminate.
module RealArith {

  lemma DivAtLeastOne(a: real, b: real)
    requires b > 0.0 && a >= b
    ensures a / b >= 1.0
  {
    assert a / b * b == a;
  }

  lemma PosMul(a: real, b: real)
    requires a > 0.0 && b > 0.0
    ensures a * b > 0.0
  {
  }

  lemma MulMono(a: real, b: real, c: real)
    requires a <= b && c >= 0.0
    ensures a * c <= b * c
  {
  }

  /** A factor between two bounds keeps its product between theirs. */
  lemma MulBracket(lo: real, x: real, hi: real, c: real)
    requires lo <= x <= hi && c >= 0.0
    ensures lo * c <= x * c <= hi * c
  {
    MulMono(lo, x, c);
    MulMono(x, hi, c);
  }

  /** How many full slots, each covering `full` metres, the distance `rem`
      still needs, plus one while the clock is off a slot boundary; zero once
      `rem` is within the loop's tolerance `tol`. */
  function SlotsLeft(rem: real, tol: real, full: real, aligned: bool): nat
  {
    if rem <= tol || full <= 0.0 then 0
    else
      var n := (rem / full).Floor;
      (if n < 0 then 0 else n) + (if aligned then 0 else 1)
  }

  /** Driving `dp` metres that do not finish the edge lowers the measure: a
      slot entered on its boundary covers at least `full` metres, and a slot
      entered part-way only costs the extra unit. */
  lemma SlotsLeftDrop(rem: real, dp: real, tol: real, full: real, aligned: bool)
    requires tol >= 0.0 && full > 0.0 && 0.0 < dp < rem - tol
    requires aligned ==> dp >= full
    ensures SlotsLeft(rem - dp, tol, full, true) < SlotsLeft(rem, tol, full, aligned)
  {
    var a := rem / full;
    var b := (rem - dp) / full;
    assert b == a - dp / full;
    assert b >= 0.0;
    if aligned {
      DivAtLeastOne(dp, full);
      assert b <= a - 1.0;
      assert b.Floor <= a.Floor - 1;
    } else {
      assert b.Floor <= a.Floor;
    }
  }
}
