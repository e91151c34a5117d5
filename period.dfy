/**
 * The summary of the selected period: glucose statistics, bolus and basal
 * insulin totals, carbohydrate total, and their averages per day.
 */
module Period {

  import opened Wrappers
  import opened Rounding
  import opened Stats
  import opened Insulin
  import opened Crossing

  /** An insulin delivery: time, units and reason. */
  datatype InsulinDose = InsulinDose(t: real, units: real, reason: Reason)

  /** Units delivered for `reason`. */
  function TotalFor(ins: seq<InsulinDose>, reason: Reason): real
  {
    if ins == [] then 0.0
    else (if ins[0].reason == reason then ins[0].units else 0.0) + TotalFor(ins[1..], reason)
  }

  /** Units delivered for any reason. */
  function TotalUnits(ins: seq<InsulinDose>): real
  {
    if ins == [] then 0.0 else ins[0].units + TotalUnits(ins[1..])
  }

  /** Every dose is counted once, either as bolus or as basal. */
  lemma {:induction false} TotalsSplit(ins: seq<InsulinDose>)
    ensures TotalFor(ins, Bolus) + TotalFor(ins, Basal) == TotalUnits(ins)
  {
    if ins != [] {
      TotalsSplit(ins[1..]);
    }
  }

  /** Sum of the values of readings (grams, for carbohydrates). */
  function ValueSum(ps: seq<Point>): real
  {
    if ps == [] then 0.0 else ps[0].v + ValueSum(ps[1..])
  }

  /**
   * Number of calendar days the averages are taken over: the inclusive day
   * count of the period, but never less than one.
   */
  function DayCount(days: int): (n: int)
    ensures n >= 1 && n >= days + 1
    ensures n == 1 || n == days + 1
  {
    if days + 1 < 1 then 1 else days + 1
  }

  /** A total averaged over `nDays` days and rounded; over one day it is the rounded total. */
  function PerDay(total: real, nDays: int): (a: int)
    requires nDays >= 1
    ensures a as real - 0.5 <= total / nDays as real <= a as real + 0.5
    ensures nDays == 1 ==> a == Round(total)
  {
    assert nDays == 1 ==> total / nDays as real == total;
    Round(total / nDays as real)
  }

  /** Rounding a whole number gives it back. */
  lemma RoundWhole(k: int)
    ensures Round(k as real) == k
  {
  }

  datatype PeriodSummary = PeriodSummary(
    glucose: Option<GlucoseStats>,
    bolus: real, basal: real, carbs: int,
    bolusRounded: int, basalRounded: int,
    bolusPerDay: int, basalPerDay: int, carbsPerDay: int)

  /**
   * Totals for the period and their rounded daily averages over `nDays`
   * days; the carbohydrate total is truncated to whole grams first.
   */
  function Summarize(glc: seq<real>, ins: seq<InsulinDose>, crb: seq<Point>, nDays: int): (s: PeriodSummary)
    requires nDays >= 1
    ensures s.glucose == ComputeStats(glc)
    ensures s.glucose.None? <==> glc == []
    ensures s.bolus == TotalFor(ins, Bolus) && s.basal == TotalFor(ins, Basal)
    ensures s.bolus + s.basal == TotalUnits(ins)
    ensures ins == [] ==> s.bolus == 0.0 && s.basal == 0.0
    ensures ValueSum(crb) >= 0.0 ==> 0 <= s.carbs && s.carbs as real <= ValueSum(crb) < s.carbs as real + 1.0
    ensures ValueSum(crb) < 0.0 ==> s.carbs <= 0 && s.carbs as real - 1.0 < ValueSum(crb) <= s.carbs as real
    ensures s.carbs == Trunc(ValueSum(crb))
    ensures s.bolusRounded == Round(s.bolus) && s.basalRounded == Round(s.basal)
    ensures s.bolusPerDay == PerDay(s.bolus, nDays) && s.basalPerDay == PerDay(s.basal, nDays)
    ensures s.carbsPerDay == PerDay(s.carbs as real, nDays)
    ensures s.bolusRounded as real - 0.5 <= s.bolus <= s.bolusRounded as real + 0.5
    ensures s.basalRounded as real - 0.5 <= s.basal <= s.basalRounded as real + 0.5
    ensures s.bolusPerDay as real - 0.5 <= s.bolus / nDays as real <= s.bolusPerDay as real + 0.5
    ensures s.basalPerDay as real - 0.5 <= s.basal / nDays as real <= s.basalPerDay as real + 0.5
    ensures s.carbsPerDay as real - 0.5 <= s.carbs as real / nDays as real <= s.carbsPerDay as real + 0.5
    ensures nDays == 1 ==> s.bolusPerDay == s.bolusRounded && s.basalPerDay == s.basalRounded && s.carbsPerDay == s.carbs
  {
    var bolus := if ins != [] then TotalFor(ins, Bolus) else 0.0;
    var basal := if ins != [] then TotalFor(ins, Basal) else 0.0;
    var carbs := if crb != [] then Trunc(ValueSum(crb)) else 0;
    TotalsSplit(ins);
    RoundWhole(carbs);
    PeriodSummary(ComputeStats(glc), bolus, basal, carbs,
                  Round(bolus), Round(basal),
                  PerDay(bolus, nDays), PerDay(basal, nDays), PerDay(carbs as real, nDays))
  }

  /**
   * The summary block as the page calls it: the averages are taken over
   * `DayCount(days)` days, so a period of `days` >= 0 days after its first
   * day averages over days + 1 days, and a shorter one over a single day,
   * where each daily average is the rounded total.
   */
  function StatsSection(glc: seq<real>, ins: seq<InsulinDose>, crb: seq<Point>, days: int): (s: PeriodSummary)
    ensures s.bolus == TotalFor(ins, Bolus) && s.basal == TotalFor(ins, Basal)
    ensures days >= 0 ==> s.bolusPerDay == PerDay(s.bolus, days + 1) && s.basalPerDay == PerDay(s.basal, days + 1)
    ensures days >= 0 ==> s.carbsPerDay == PerDay(s.carbs as real, days + 1)
    ensures days <= 0 ==> s.bolusPerDay == s.bolusRounded && s.basalPerDay == s.basalRounded && s.carbsPerDay == s.carbs
  {
    Summarize(glc, ins, crb, DayCount(days))
  }

}
