/**
 * The glucose target range and the classification of a reading into one of
 * three zones: below the range, inside the closed range, above the range.
 */
module Zones {

  /** Lower bound of the target range, mmol/l. */
  const GlucoseMin: real := 4.0
  /** Upper bound of the target range, mmol/l. */
  const GlucoseMax: real := 10.0

  datatype Zone = Below | InRange | Above

  /** Classifies a reading; both thresholds belong to the range. */
  function ZoneOf(v: real): (z: Zone)
    ensures z == Below <==> v < GlucoseMin
    ensures z == Above <==> v > GlucoseMax
    ensures z == InRange <==> GlucoseMin <= v <= GlucoseMax
  {
    if v < GlucoseMin then Below
    else if v > GlucoseMax then Above
    else InRange
  }

  /** Position of a zone on the value axis, lowest first. */
  function Rank(z: Zone): nat
  {
    match z
    case Below => 0
    case InRange => 1
    case Above => 2
  }

  /** A higher reading never falls into a lower zone. */
  lemma ZoneMonotone(v: real, w: real)
    requires v <= w
    ensures Rank(ZoneOf(v)) <= Rank(ZoneOf(w))
  {
  }

  /** Readings exactly on a threshold are in range. */
  lemma ThresholdsInRange()
    ensures ZoneOf(GlucoseMin) == InRange && ZoneOf(GlucoseMax) == InRange
  {
  }

}
