/**
 * The point where the straight line between two neighbouring readings
 * crosses a threshold of the target range.
 */
module Crossing {

  import opened Zones

  /** A reading or an interpolated point: time `t` and glucose value `v`. */
  datatype Point = Point(t: real, v: real)

  /**
   * The threshold the pair is taken to cross: the lower one when exactly one
   * of the two values lies below it, the upper one otherwise.
   */
  function Boundary(v0: real, v1: real): (b: real)
    ensures b == GlucoseMin || b == GlucoseMax
    ensures b == GlucoseMin <==> (v0 < GlucoseMin) != (v1 < GlucoseMin)
  {
    if (v0 < GlucoseMin) != (v1 < GlucoseMin) then GlucoseMin else GlucoseMax
  }

  /**
   * Fraction of the way from v0 to v1 at which the boundary is reached;
   * one half when the two values are equal.
   */
  function Ratio(v0: real, v1: real): (r: real)
    ensures v0 != v1 ==> v0 + r * (v1 - v0) == Boundary(v0, v1)
    ensures v0 == v1 ==> r == 0.5
  {
    if v1 != v0 then (Boundary(v0, v1) - v0) / (v1 - v0) else 0.5
  }

  /**
   * The crossing point of the pair (t0, v0), (t1, v1): its value is the
   * boundary and, unless the values are equal, it lies on the line through
   * the two readings; for equal values it sits at the midpoint in time.
   */
  function CrossingPoint(t0: real, t1: real, v0: real, v1: real): (p: Point)
    ensures p.v == Boundary(v0, v1)
    ensures v0 != v1 ==> (p.t - t0) * (v1 - v0) == (t1 - t0) * (p.v - v0)
    ensures v0 == v1 ==> p.t == (t0 + t1) / 2.0
  {
    var r := Ratio(v0, v1);
    assert v0 != v1 ==> (t1 - t0) * r * (v1 - v0) == (t1 - t0) * (r * (v1 - v0));
    Point(t0 + (t1 - t0) * r, Boundary(v0, v1))
  }

  /**
   * When the two readings lie in different zones, their values differ, the
   * chosen boundary lies between them and so the ratio is in [0, 1].
   */
  lemma BoundaryBetween(v0: real, v1: real)
    requires ZoneOf(v0) != ZoneOf(v1)
    ensures v0 != v1
    ensures v0 < v1 ==> v0 <= Boundary(v0, v1) <= v1
    ensures v1 < v0 ==> v1 <= Boundary(v0, v1) <= v0
    ensures 0.0 <= Ratio(v0, v1) <= 1.0
    ensures ZoneOf(Boundary(v0, v1)) == InRange
  {
    var b := Boundary(v0, v1);
    var r := Ratio(v0, v1);
    var d := v1 - v0;
    assert r * d == b - v0;
    if v0 < v1 {
      RatioBounds(r, d, b - v0);
    } else {
      RatioBounds(r, -d, v0 - b);
    }
  }

  /**
   * For readings in different zones taken at t0 <= t1, the crossing time
   * lies in [t0, t1].
   */
  lemma CrossingWithinPair(t0: real, t1: real, v0: real, v1: real)
    requires ZoneOf(v0) != ZoneOf(v1)
    ensures t0 <= t1 ==> t0 <= CrossingPoint(t0, t1, v0, v1).t <= t1
    ensures ZoneOf(CrossingPoint(t0, t1, v0, v1).v) == InRange
  {
    BoundaryBetween(v0, v1);
    var p := CrossingPoint(t0, t1, v0, v1);
    TimeBetween(t0, t1, Ratio(v0, v1), p.t);
  }

  /** If r * d == e with 0 <= e <= d and d > 0, then r is in [0, 1]. */
  lemma RatioBounds(r: real, d: real, e: real)
    requires d > 0.0 && 0.0 <= e <= d && r * d == e
    ensures 0.0 <= r <= 1.0
  {
    assert r == e / d;
  }

  lemma MulNonNegative(a: real, b: real)
    requires 0.0 <= a && 0.0 <= b
    ensures 0.0 <= a * b
  {
  }

  /** Interpolating between t0 <= t1 with a ratio in [0, 1] stays in [t0, t1]. */
  lemma TimeBetween(t0: real, t1: real, r: real, t: real)
    requires 0.0 <= r <= 1.0 && t == t0 + (t1 - t0) * r
    ensures t0 <= t1 ==> t0 <= t <= t1
  {
    if t0 <= t1 {
      var d := t1 - t0;
      MulNonNegative(d, r);
      MulNonNegative(d, 1.0 - r);
      assert d * r + d * (1.0 - r) == d;
    }
  }

}
