/**
 * Spacing and label format of the time-axis ticks, chosen from the length
 * of the selected period in days.
 */
module Ticks {

  /** One hour in milliseconds, the unit of the tick spacing. */
  const HourMs: int := 3600000

  /** "%H:%M" (time of day) or "%d.%m" (day and month). */
  datatype TickFormat = HourMinute | DayMonth

  /** Distance between ticks, label format, and whether labels are bold. */
  datatype AxisTicks = AxisTicks(dtick: int, format: TickFormat, bold: bool)

  /**
   * Every 2, 6, 12 or 24 hours up to 3, 7, 14 or 31 days, and weekly
   * beyond; times of day with plain labels up to 14 days, bold dates beyond.
   */
  function XAxisTicks(days: int): (r: AxisTicks)
    ensures r.format == HourMinute <==> days <= 14
    ensures r.bold <==> days > 14
    ensures r.dtick > 0 && r.dtick % (2 * HourMs) == 0
    ensures r.dtick <= 7 * 24 * HourMs
  {
    var dtick :=
      if days <= 3 then 2 * HourMs
      else if days <= 7 then 6 * HourMs
      else if days <= 14 then 12 * HourMs
      else if days <= 31 then 24 * HourMs
      else 7 * 24 * HourMs;
    if days <= 14 then AxisTicks(dtick, HourMinute, false)
    else AxisTicks(dtick, DayMonth, true)
  }

  /** A longer period never gets denser ticks. */
  lemma TicksMonotone(d1: int, d2: int)
    requires d1 <= d2
    ensures XAxisTicks(d1).dtick <= XAxisTicks(d2).dtick
  {
  }

  /** With time-of-day labels the ticks are at most half a day apart, with date labels at least a day. */
  lemma TickSpacingMatchesFormat(days: int)
    ensures XAxisTicks(days).format == HourMinute ==> XAxisTicks(days).dtick <= 12 * HourMs
    ensures XAxisTicks(days).format == DayMonth ==> XAxisTicks(days).dtick >= 24 * HourMs
  {
  }

}
