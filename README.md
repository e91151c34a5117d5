# Glucose range segmentation and period statistics — a Dafny model

This project models the computational core of a diabetes diary that reads an
Apple HealthKit export and plots glucose, insulin and carbohydrates over a
chosen period. The model covers:

- **Zones** (`zones.dfy`): a glucose reading is below, inside or above the
  closed target range [4, 10] mmol/l.
- **Crossing points** (`crossing.dfy`): for two neighbouring readings in
  different zones, which threshold the line between them crosses, and the
  linearly interpolated time at which it does. The fallback ratio is one half
  when the two values are equal.
- **Segments** (`segments.dfy`): the glucose line is cut into coloured
  segments in one left-to-right pass. A segment grows while the zone stays
  the same. On a zone change it is closed at the crossing point, and the next
  segment starts at that same point. `BuildSegments` is that loop. It is
  proved equal to `Segments`, which is specified in two steps:
  - `Runs` splits the readings into maximal same-zone blocks.
  - `Decorate` adds the shared crossing point between neighbouring blocks.

  Lemmas state the number of segments, how neighbouring segments join, the
  zone tag of every reading, that the readings are recovered in order, and
  time order.
- **Rounding** (`rounding.dfy`): Python's `round`, which rounds half to even,
  and `int`, which truncates toward zero.
- **Statistics** (`stats.dfy`): time in range (`tir`) and time above range
  (`tar`) are rounded percentages. Time below range (`tbr`) is their
  complement to 100. The mean, minimum and maximum are not rounded. There are
  no statistics for an empty period.
- **Insulin reason** (`insulin.dfy`): a record is basal exactly when one of
  its nested metadata entries has key `HKInsulinDeliveryReason` and value
  `1`. Otherwise it is bolus.
- **Period summary** (`period.dfy`): bolus and basal totals, the carbohydrate
  total, their rounded daily averages, and the day divisor `max(1, days + 1)`.
- **Axis ticks** (`ticks.dfy`): tick spacing and label format as a function of
  the period length in days.

Values and timestamps are mathematical reals. A timestamp is a number on a
time line, for example seconds. The Python lists `seg_x` and `seg_y` of a
segment are kept together as one sequence of `Point(t, v)`. The `Reason`
values `Bolus` and `Basal` stand for the strings "Болюс" and "Базал".

## Model

| member | source | states |
|---|---|---|
| `Zones.ZoneOf` | healthkit_diabetes.py:25-31 | below iff v < 4, above iff v > 10, in range iff 4 <= v <= 10 (the range is closed) |
| `Zones.ZoneMonotone` | healthkit_diabetes.py:25-31 | a higher reading is never in a lower zone |
| `Zones.ThresholdsInRange` | healthkit_diabetes.py:14-15 | readings exactly at either threshold are in range |
| `Crossing.Boundary` | healthkit_diabetes.py:72 | the boundary is one of the two thresholds; it is the lower one exactly when the two values lie on different sides of it |
| `Crossing.Ratio` | healthkit_diabetes.py:73 | for unequal values, v0 + ratio * (v1 - v0) equals the boundary; for equal values the ratio is 0.5 |
| `Crossing.CrossingPoint` | healthkit_diabetes.py:68-74 | the returned value is the boundary; for unequal values the point lies on the line through both readings, and for equal values it lies at the midpoint in time |
| `Crossing.BoundaryBetween` | healthkit_diabetes.py:72-73 | for readings in different zones, the values differ, the boundary lies between them, the ratio is in [0, 1], and the boundary is in range |
| `Crossing.CrossingWithinPair` | healthkit_diabetes.py:72-74 | for readings in different zones with t0 <= t1, the crossing time lies in [t0, t1] |
| `Segments.RunsPartition` | healthkit_diabetes.py:85-106 | the same-zone blocks are non-empty and concatenate to the readings; each block holds only readings of its zone, and neighbouring blocks differ in zone |
| `Segments.RunsCount` | healthkit_diabetes.py:79-106 | there are no blocks for no readings, otherwise 1 + the number of neighbouring pairs whose zones differ |
| `Segments.RunsSorted` | healthkit_diabetes.py:86-106 | for readings sorted by time, every block is sorted and ends no later than the next block starts |
| `Segments.SegmentsGrow` | healthkit_diabetes.py:91-93 | one more reading in the zone of the last reading extends the last segment by that reading and changes nothing else |
| `Segments.SegmentsCut` | healthkit_diabetes.py:94-104 | one more reading in another zone closes the last segment at the crossing point with the previous reading and opens a new segment [crossing, reading] in the new zone; nothing else changes |
| `Segments.SegmentsOfOne` | healthkit_diabetes.py:86-88 | a single reading gives one segment holding only that reading |
| `Segments.BuildSegments` | healthkit_diabetes.py:79-106 | the loop's output equals the specified segments; empty input gives no segments |
| `Segments.SegmentCount` | healthkit_diabetes.py:79-106 | no segments for no readings, otherwise 1 + the number of zone changes between neighbours |
| `Segments.SegmentsRecover` | healthkit_diabetes.py:86-106 | dropping the shared crossing points and concatenating the segments gives back the readings in order; every segment holds a reading, and all of them are in the segment's zone |
| `Segments.SegmentsJoined` | healthkit_diabetes.py:94-104 | neighbouring segments differ in zone; the last point of one is the first point of the next; its value is a threshold, and it is the crossing point of the last reading before and the first reading after |
| `Segments.SegmentsSpan` | healthkit_diabetes.py:86-106 | the first segment starts at the first reading and the last segment ends at the last reading |
| `Segments.SegmentsSorted` | healthkit_diabetes.py:90-104 | with readings sorted by time, every segment's points are non-decreasing in time |
| `Segments.OneZoneOneSegment` | healthkit_diabetes.py:90-93 | readings that never leave one zone give exactly one segment |
| `Segments.SegmentsExample` | healthkit_diabetes.py:79-106 | readings 3, 5, 12, 7 give four segments; the first crossing is at value 4, halfway in time |
| `Rounding.Round` | healthkit_diabetes.py:165-166 | the result is within one half of x, and an exact tie goes to the even integer |
| `Rounding.RoundNearest` | healthkit_diabetes.py:165-166 | no integer is closer to x than the rounded value |
| `Rounding.RoundSumAtMost100` | healthkit_diabetes.py:165-168 | two non-negative shares summing to at most 100 round to at most 100 in total, so the complement is never negative |
| `Rounding.Trunc` | healthkit_diabetes.py:187 | truncation toward zero: it keeps the sign of x and is less than one away from it |
| `Stats.BetweenIsInRange` | healthkit_diabetes.py:165 | counting readings with 4 <= v <= 10 counts exactly the in-range readings |
| `Stats.AboveIsAbove` | healthkit_diabetes.py:166 | counting readings with v > 10 counts exactly the above-range readings |
| `Stats.ZoneCountsAddUp` | healthkit_diabetes.py:165-168 | the below, in-range and above counts add up to the number of readings |
| `Stats.MinOf` | healthkit_diabetes.py:169 | the minimum is one of the readings and no reading is smaller |
| `Stats.MaxOf` | healthkit_diabetes.py:169 | the maximum is one of the readings and no reading is larger |
| `Stats.MeanBetween` | healthkit_diabetes.py:169 | min <= mean <= max |
| `Stats.RoundedShares` | healthkit_diabetes.py:165-168 | rounded tir and tar and the complement tbr are non-negative; tir and tar are within 1/2 of the exact shares, and tbr is within 1 |
| `Stats.ComputeStats` | healthkit_diabetes.py:159-170 | None iff there are no readings; otherwise tir and tar are the half-to-even rounded percentages of the in-range and above-range readings (so each is within 1/2 of its share), tir + tar + tbr = 100 and all three are >= 0, and tbr is within 1 of the below-range share; min and max are readings that bound all readings, and min <= mean = sum / n <= max |
| `Stats.StatsExample` | healthkit_diabetes.py:159-170 | readings 3, 5, 12, 7 give tir 50, tar 25, tbr 25, mean 6.75, min 3, max 12 |
| `Insulin.ContainsAt` | healthkit_diabetes.py:304 | the substring test holds exactly when the piece occurs at some position of the tag |
| `Insulin.DeliveryReason` | healthkit_diabetes.py:299-307 | the reason is basal iff some element is a metadata entry with key HKInsulinDeliveryReason and value "1"; otherwise it is bolus |
| `Insulin.NamespacedTagExample` | healthkit_diabetes.py:302-307 | a namespaced MetadataEntry tag with reason "1" is basal; reason "2" is not |
| `Period.TotalsSplit` | healthkit_diabetes.py:185-186 | bolus total + basal total = all insulin units |
| `Period.DayCount` | healthkit_diabetes.py:578 | the day divisor is at least 1, and it is days + 1 whenever that is at least 1 |
| `Period.PerDay` | healthkit_diabetes.py:225-243 | the daily average is within 1/2 of total / days; over one day it is the rounded total |
| `Period.Summarize` | healthkit_diabetes.py:184-245 | the glucose statistics are those of the glucose readings (none iff there are none); the bolus and basal totals are the sums of the doses with that reason and add up to all units (both 0 without doses); carbs are the sum truncated toward zero; the displayed totals are the rounded totals and each daily average is total / days rounded half to even, so within 1/2 of it; over one day the averages equal the totals |
| `Period.StatsSection` | healthkit_diabetes.py:578 | the page averages over days + 1 days for a period of days >= 0, and over a single day otherwise, where the daily averages are the rounded totals |
| `Ticks.XAxisTicks` | healthkit_diabetes.py:139-156 | "%H:%M" labels iff days <= 14; bold labels iff days > 14; the spacing is a positive multiple of 2 hours and at most 7 days |
| `Ticks.TicksMonotone` | healthkit_diabetes.py:139-149 | the tick spacing never decreases as the period grows |
| `Ticks.TickSpacingMatchesFormat` | healthkit_diabetes.py:139-156 | with time-of-day labels the spacing is at most 12 hours; with date labels it is at least 24 hours |

## Left out

- The Streamlit page: configuration, CSS, the date picker, the quick-select buttons, `st.session_state` and `st.rerun` (healthkit_diabetes.py:33-61, 326-383). This is presentation and UI state.
- XML reading in `load_data`: `iterparse`, the file-existence check, skipping unparseable records, `elem.clear()` and the disk cache (healthkit_diabetes.py:256-322). This is I/O through a library. Only the reason decision is modelled. It works on the list of elements that `elem.iter()` yields, in document order.
- Plotly: the trace and figure construction, colours, the hover trace, rectangles, lines and the layout (healthkit_diabetes.py:108-136, 396-576). The model produces the segments a trace is built from, not the trace.
- `_fmt_units` (healthkit_diabetes.py:64-65): number-to-text formatting.
- `_to_sorted_df` (healthkit_diabetes.py:248-253): the pandas sort and the removal of the time zone. Sorted input is a precondition of `Segments.RunsSorted` and `Segments.SegmentsSorted` only. Everything else holds for any order.
- Filtering by the selected dates, day shading with `pd.date_range`, and the computation of `_days` from the selected dates (healthkit_diabetes.py:386-393, 485-500, 506). The number of days is a parameter of `Ticks.XAxisTicks` and `Period.DayCount`.
- The text, colours and markup `_stats_section` renders. Only the numbers it shows are modelled.
- `Ticks.XAxisTicks`: the bold `tickfont` dictionary is modelled as a flag.
- IEEE floating point: all arithmetic is exact. With exact arithmetic and half-to-even rounding, `tbr` is never negative (`Rounding.RoundSumAtMost100`). A negative `tbr` could only come from float rounding of the two percentages, which is not modelled.
- The thresholds are the module constants `GlucoseMin` and `GlucoseMax`, as in the code. They are not per-call parameters.
