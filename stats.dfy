/**
 * Time in range, above and below, and the mean, minimum and maximum of the
 * glucose readings of the selected period.
 */
module Stats {

  import opened Wrappers
  import opened Zones
  import opened Rounding

  datatype GlucoseStats = GlucoseStats(tir: int, tar: int, tbr: int, mean: real, min: real, max: real)

  /** Number of readings in zone `z`. */
  function CountZone(vals: seq<real>, z: Zone): nat
  {
    if vals == [] then 0 else (if ZoneOf(vals[0]) == z then 1 else 0) + CountZone(vals[1..], z)
  }

  /** Number of readings in the closed interval [lo, hi]. */
  function CountBetween(vals: seq<real>, lo: real, hi: real): nat
  {
    if vals == [] then 0 else (if lo <= vals[0] <= hi then 1 else 0) + CountBetween(vals[1..], lo, hi)
  }

  /** Number of readings strictly above `lo`. */
  function CountAbove(vals: seq<real>, lo: real): nat
  {
    if vals == [] then 0 else (if vals[0] > lo then 1 else 0) + CountAbove(vals[1..], lo)
  }

  /** Counting readings between the thresholds counts exactly the readings in range. */
  lemma {:induction false} BetweenIsInRange(vals: seq<real>)
    ensures CountBetween(vals, GlucoseMin, GlucoseMax) == CountZone(vals, InRange)
  {
    if vals != [] {
      BetweenIsInRange(vals[1..]);
    }
  }

  /** Counting readings above the upper threshold counts exactly the readings above range. */
  lemma {:induction false} AboveIsAbove(vals: seq<real>)
    ensures CountAbove(vals, GlucoseMax) == CountZone(vals, Above)
  {
    if vals != [] {
      AboveIsAbove(vals[1..]);
    }
  }

  /** Every reading is in exactly one zone. */
  lemma {:induction false} ZoneCountsAddUp(vals: seq<real>)
    ensures CountZone(vals, Below) + CountZone(vals, InRange) + CountZone(vals, Above) == |vals|
  {
    if vals != [] {
      ZoneCountsAddUp(vals[1..]);
    }
  }

  function Sum(vals: seq<real>): real
  {
    if vals == [] then 0.0 else vals[0] + Sum(vals[1..])
  }

  /** The smallest reading. */
  function MinOf(vals: seq<real>): (m: real)
    requires vals != []
    ensures m in vals && forall v :: v in vals ==> m <= v
  {
    if |vals| == 1 then vals[0]
    else
      var rest := MinOf(vals[1..]);
      assert forall v :: v in vals ==> v == vals[0] || v in vals[1..];
      if vals[0] <= rest then vals[0] else rest
  }

  /** The largest reading. */
  function MaxOf(vals: seq<real>): (m: real)
    requires vals != []
    ensures m in vals && forall v :: v in vals ==> v <= m
  {
    if |vals| == 1 then vals[0]
    else
      var rest := MaxOf(vals[1..]);
      assert forall v :: v in vals ==> v == vals[0] || v in vals[1..];
      if vals[0] >= rest then vals[0] else rest
  }

  /** A sum of n readings, each between lo and hi, lies between n * lo and n * hi. */
  lemma {:induction false} SumBetween(vals: seq<real>, lo: real, hi: real)
    requires forall v :: v in vals ==> lo <= v <= hi
    ensures |vals| as real * lo <= Sum(vals) <= |vals| as real * hi
  {
    if vals != [] {
      assert vals[0] in vals;
      assert forall v :: v in vals[1..] ==> v in vals;
      SumBetween(vals[1..], lo, hi);
      AddBetween(|vals[1..]| as real, lo, hi, vals[0], Sum(vals[1..]));
    }
  }

  /** One more value in [lo, hi] added to a sum of k such values. */
  lemma AddBetween(k: real, lo: real, hi: real, x: real, s: real)
    requires k * lo <= s <= k * hi && lo <= x <= hi
    ensures (k + 1.0) * lo <= x + s <= (k + 1.0) * hi
  {
    assert (k + 1.0) * lo == k * lo + lo;
    assert (k + 1.0) * hi == k * hi + hi;
  }

  /** The mean of readings that all lie in [lo, hi] lies in [lo, hi]. */
  lemma MeanWithin(vals: seq<real>, lo: real, hi: real)
    requires vals != [] && forall v :: v in vals ==> lo <= v <= hi
    ensures lo <= Sum(vals) / |vals| as real <= hi
  {
    SumBetween(vals, lo, hi);
    DivBetween(Sum(vals), |vals| as real, lo, hi);
  }

  /** The mean of the readings lies between their minimum and maximum. */
  lemma MeanBetween(vals: seq<real>)
    requires vals != []
    ensures MinOf(vals) <= Sum(vals) / |vals| as real <= MaxOf(vals)
  {
    MeanWithin(vals, MinOf(vals), MaxOf(vals));
  }

  lemma DivBetween(s: real, n: real, lo: real, hi: real)
    requires n > 0.0 && n * lo <= s <= n * hi
    ensures lo <= s / n <= hi
  {
    var q := s / n;
    assert n * q == s;
    assert n * (q - lo) >= 0.0;
    assert n * (hi - q) >= 0.0;
  }

  /** Share of `count` among `n` readings, in percent, computed as count / n * 100. */
  function Percent(count: nat, n: nat): real
    requires n > 0
  {
    count as real / n as real * 100.0
  }

  /** Shares a / k, b / k and c / k of a whole k = a + b + c, in percent, add up to 100. */
  lemma SharesAddUp(a: real, b: real, c: real, k: real)
    requires 0.0 <= a && 0.0 <= b && 0.0 <= c && k > 0.0 && a + b + c == k
    ensures 0.0 <= a / k * 100.0 && 0.0 <= b / k * 100.0 && 0.0 <= c / k * 100.0
    ensures a / k * 100.0 + b / k * 100.0 + c / k * 100.0 == 100.0
  {
    DivNonNegative(a, k);
    DivNonNegative(b, k);
    DivNonNegative(c, k);
    DivAdd(a, b, k);
    DivAdd(a + b, c, k);
    assert (a + b + c) / k == 1.0;
  }

  lemma DivNonNegative(a: real, k: real)
    requires 0.0 <= a && k > 0.0
    ensures 0.0 <= a / k
  {
  }

  lemma DivAdd(a: real, b: real, k: real)
    requires k != 0.0
    ensures a / k + b / k == (a + b) / k
  {
  }

  /**
   * With `below`, `inRange` and `above` readings out of n, the rounded
   * in-range and above-range percentages and their complement to 100 are
   * non-negative and each within rounding distance of the exact share.
   */
  lemma RoundedShares(below: nat, inRange: nat, above: nat, n: nat)
    requires n > 0 && below + inRange + above == n
    ensures var tir, tar := Round(Percent(inRange, n)), Round(Percent(above, n));
      && 0 <= tir && 0 <= tar && tir + tar <= 100
      && tir as real - 0.5 <= Percent(inRange, n) <= tir as real + 0.5
      && tar as real - 0.5 <= Percent(above, n) <= tar as real + 0.5
      && (100 - tir - tar) as real - 1.0 <= Percent(below, n) <= (100 - tir - tar) as real + 1.0
  {
    var x, y, z := Percent(inRange, n), Percent(above, n), Percent(below, n);
    SharesAddUp(inRange as real, above as real, below as real, n as real);
    RoundSumAtMost100(x, y);
  }

  /**
   * The statistics of a period: none without readings; otherwise the
   * in-range and above-range percentages are rounded, the below-range one is
   * what is left of 100, and the mean, minimum and maximum are unrounded.
   */
  function ComputeStats(vals: seq<real>): (r: Option<GlucoseStats>)
    ensures r.None? <==> vals == []
    ensures r.Some? ==>
              && r.value.tir == Round(Percent(CountZone(vals, InRange), |vals|))
              && r.value.tar == Round(Percent(CountZone(vals, Above), |vals|))
    ensures r.Some? ==> r.value.tir + r.value.tar + r.value.tbr == 100
    ensures r.Some? ==> 0 <= r.value.tir && 0 <= r.value.tar && 0 <= r.value.tbr
    ensures r.Some? ==>
              var n := |vals|;
              && r.value.tir as real - 0.5 <= Percent(CountZone(vals, InRange), n) <= r.value.tir as real + 0.5
              && r.value.tar as real - 0.5 <= Percent(CountZone(vals, Above), n) <= r.value.tar as real + 0.5
              && r.value.tbr as real - 1.0 <= Percent(CountZone(vals, Below), n) <= r.value.tbr as real + 1.0
    ensures r.Some? ==>
              && r.value.min in vals && r.value.max in vals
              && (forall v :: v in vals ==> r.value.min <= v <= r.value.max)
              && r.value.min <= r.value.mean <= r.value.max
              && r.value.mean == Sum(vals) / |vals| as real
  {
    if vals == [] then None
    else
      var n := |vals|;
      var tir := Round(Percent(CountBetween(vals, GlucoseMin, GlucoseMax), n));
      var tar := Round(Percent(CountAbove(vals, GlucoseMax), n));
      BetweenIsInRange(vals);
      AboveIsAbove(vals);
      ZoneCountsAddUp(vals);
      RoundedShares(CountZone(vals, Below), CountZone(vals, InRange), CountZone(vals, Above), n);
      MeanBetween(vals);
      Some(GlucoseStats(tir, tar, 100 - tir - tar, Sum(vals) / n as real, MinOf(vals), MaxOf(vals)))
  }

  /** The worked example: readings 3, 5, 12 and 7 mmol/l. */
  lemma StatsExample()
    ensures ComputeStats([3.0, 5.0, 12.0, 7.0]) == Some(GlucoseStats(50, 25, 25, 6.75, 3.0, 12.0))
  {
    var vals := [3.0, 5.0, 12.0, 7.0];
    assert CountBetween(vals, GlucoseMin, GlucoseMax) == 2;
    assert CountAbove(vals, GlucoseMax) == 1;
    assert Sum(vals) == 27.0;
    assert Percent(2, 4) == 50.0 && Percent(1, 4) == 25.0;
    assert Round(50.0) == 50 && Round(25.0) == 25;
    assert MinOf(vals) == 3.0 && MaxOf(vals) == 12.0;
  }

}
