/*
 * The recursive range wrap used for the ship's heading (ClientUDP/Math.h).
 *
 * Wrap(val, min, max) swaps reversed bounds, subtracts `max` while val >= max,
 * and adds `max - min` while val < min.  The recursion ends only when the
 * bounds differ and, for a value at or above the upper bound, that bound is
 * positive (subtracting a non-positive bound never makes progress); the
 * precondition below is exactly that.
 */
module Math {

  function Lo(min: real, max: real): real { if min > max then max else min }
  function Hi(min: real, max: real): real { if min > max then min else max }

  /** The inputs on which the source's recursion terminates. */
  predicate Terminates(val: real, min: real, max: real)
  {
    Lo(min, max) < Hi(min, max) && (Hi(min, max) > 0.0 || val < Hi(min, max))
  }

  /** Subtractions of `max` still to come (0 once val < max). */
  function Downs(val: real, max: real): int
    requires max > 0.0 || val < max
  {
    if val >= max then (val / max).Floor + 1 else 0
  }

  /** Additions of `max - min` still to come (0 once val >= min). */
  function Ups(val: real, min: real, max: real): int
    requires min < max
  {
    if val < min then ((min - val) / (max - min)).Floor + 1 else 0
  }

  /** (a + k b) / b == a / b + k for b > 0. */
  lemma DivShift(a: real, b: real, k: real)
    requires b > 0.0
    ensures (a + k * b) / b == a / b + k
  {
    var q := a / b;
    assert q * b == a;
    assert (q + k) * b == a + k * b;
  }

  lemma DownsDecrease(val: real, max: real)
    requires max > 0.0 && val >= max
    ensures 0 <= Downs(val - max, max) < Downs(val, max)
  {
    DivShift(val, max, -1.0);
    assert val / max >= 1.0 by {
      DivShift(val - max, max, 1.0);
    }
  }

  lemma UpsDecrease(val: real, min: real, max: real)
    requires min < max && val < min
    ensures 0 <= Ups(val + (max - min), min, max) < Ups(val, min, max)
    ensures val + (max - min) < max
  {
    DivShift(min - val, max - min, -1.0);
    assert (min - val) / (max - min) > 0.0 by {
      DivShift(0.0, max - min, 0.0);
      assert (min - val) / (max - min) * (max - min) == min - val;
    }
  }

  function Wrap(val: real, min: real, max: real): (r: real)
    requires Terminates(val, min, max)
    ensures Lo(min, max) <= r < Hi(min, max)
    decreases if min > max then 1 else 0, Downs(val, Hi(min, max)), Ups(val, Lo(min, max), Hi(min, max))
  {
    if min > max then Wrap(val, max, min)
    else if val >= max then
      DownsDecrease(val, max);
      Wrap(val - max, min, max)
    else if val < min then
      UpsDecrease(val, min, max);
      Wrap(max - min + val, min, max)
    else val
  }

  /** Reversed bounds give the same result as the ordered ones. */
  lemma SwappedBounds(val: real, min: real, max: real)
    requires min > max && Terminates(val, min, max)
    ensures Terminates(val, max, min)
    ensures Wrap(val, min, max) == Wrap(val, max, min)
  {
  }

  /** A value already in [min, max) is returned unchanged. */
  lemma InRangeFixed(val: real, min: real, max: real)
    requires min <= val < max
    ensures Terminates(val, min, max) && Wrap(val, min, max) == val
  {
  }

  /** Wrapping twice is wrapping once. */
  lemma Idempotent(val: real, min: real, max: real)
    requires Terminates(val, min, max)
    ensures Terminates(Wrap(val, min, max), min, max)
    ensures Wrap(Wrap(val, min, max), min, max) == Wrap(val, min, max)
  {
    var r := Wrap(val, min, max);
    InRangeFixed(r, Lo(min, max), Hi(min, max));
    if min > max {
      SwappedBounds(r, min, max);
    }
  }

  predicate IsWhole(x: real) { x == x.Floor as real }

  lemma WholeShift(x: real, k: int)
    ensures IsWhole(x) <==> IsWhole(x + k as real)
  {
    assert (x + k as real).Floor == x.Floor + k;
  }

  /** Shifting the start point by k whole periods keeps the distance a whole number of periods. */
  lemma PeriodShift(r: real, v: real, max: real, k: int)
    requires max > 0.0 && IsWhole((r - (v + k as real * max)) / max)
    ensures IsWhole((r - v) / max)
  {
    var x := (r - (v + k as real * max)) / max;
    DivShift(r - (v + k as real * max), max, k as real);
    assert (r - v) / max == x + k as real;
    WholeShift(x, k);
  }

  /**
   * With min = 0 (the heading wrap into [0, 360)), the result differs from
   * the input by a whole number of periods.
   */
  lemma {:induction false} ZeroMinPeriodic(val: real, max: real)
    requires max > 0.0
    ensures Terminates(val, 0.0, max)
    ensures IsWhole((Wrap(val, 0.0, max) - val) / max)
    decreases Downs(val, max), Ups(val, 0.0, max)
  {
    var r := Wrap(val, 0.0, max);
    if val >= max {
      DownsDecrease(val, max);
      ZeroMinPeriodic(val - max, max);
      assert r == Wrap(val - max, 0.0, max);
      assert val + (-1) as real * max == val - max;
      PeriodShift(r, val, max, -1);
    } else if val < 0.0 {
      UpsDecrease(val, 0.0, max);
      ZeroMinPeriodic(max + val, max);
      assert r == Wrap(max - 0.0 + val, 0.0, max);
      assert val + 1 as real * max == max + val;
      PeriodShift(r, val, max, 1);
    } else {
      assert r - val == 0.0;
    }
  }
}
