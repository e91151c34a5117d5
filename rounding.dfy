/**
 * The two integer conversions the statistics use: Python's `round`, which
 * rounds to the nearest integer and breaks ties towards the even one, and
 * `int`, which truncates towards zero.
 */
module Rounding {

  /** Round half to even. */
  function Round(x: real): (n: int)
    ensures n as real - 0.5 <= x <= n as real + 0.5
    ensures (x == n as real - 0.5 || x == n as real + 0.5) ==> n % 2 == 0
  {
    var f := x.Floor;
    var d := x - f as real;
    if d < 0.5 then f
    else if d > 0.5 then f + 1
    else if f % 2 == 0 then f
    else f + 1
  }

  /** The rounded value is a nearest integer to x. */
  lemma RoundNearest(x: real, k: int)
    ensures Round(x) == k || (k as real - x) * (k as real - x) >= (Round(x) as real - x) * (Round(x) as real - x)
  {
    var n := Round(x);
    if k != n {
      var a, b := k as real - x, n as real - x;
      assert -0.5 <= b <= 0.5;
      assert k > n ==> a >= 0.5;
      assert k < n ==> a <= -0.5;
      assert a * a >= 0.25 by {
        if a >= 0.5 {
          assert a * a >= 0.5 * a;
        } else {
          assert a * a >= -0.5 * a;
        }
      }
      assert b * b <= 0.25 by {
        if b >= 0.0 {
          assert b * b <= 0.5 * b;
        } else {
          assert b * b <= -0.5 * b;
        }
      }
    }
  }

  /**
   * Two shares that add up to at most 100 never round to more than 100 in
   * total: both would have to round up by exactly one half, and then both
   * results are even while their sum, 101, is odd.
   */
  lemma RoundSumAtMost100(x: real, y: real)
    requires 0.0 <= x && 0.0 <= y && x + y <= 100.0
    ensures Round(x) + Round(y) <= 100
  {
  }

  /** Python's `int` on a real: truncation towards zero. */
  function Trunc(x: real): (n: int)
    ensures 0.0 <= x ==> 0 <= n && n as real <= x < n as real + 1.0
    ensures x < 0.0 ==> n <= 0 && n as real - 1.0 < x <= n as real
  {
    if x >= 0.0 then x.Floor else -((-x).Floor)
  }

}
