/**
 * Splitting the glucose line into coloured segments.
 *
 * The specification is given in two steps: `Runs` partitions the readings
 * into maximal blocks of neighbouring readings that share a zone, and
 * `Decorate` turns each block into a drawable segment by adding the crossing
 * point shared with the previous block in front and the one shared with the
 * next block at the end. `BuildSegments` is the single left-to-right pass
 * that the program runs, proved to produce exactly `Segments(readings)`.
 */
module Segments {

  import opened Zones
  import opened Crossing

  /** A maximal block of neighbouring readings in one zone. */
  datatype Run = Run(points: seq<Point>, zone: Zone)

  /** A drawable part of the glucose line: its points and its colour zone. */
  datatype Segment = Segment(points: seq<Point>, zone: Zone)

  function Last<T>(s: seq<T>): T
    requires s != []
  {
    s[|s| - 1]
  }

  /** Readings in non-decreasing order of time. */
  ghost predicate SortedByTime(ps: seq<Point>)
  {
    forall i :: 0 <= i < |ps| - 1 ==> ps[i].t <= ps[i + 1].t
  }

  // ---------------------------------------------------------------------
  // Runs: the partition into maximal same-zone blocks

  /**
   * Adds reading `r` after the blocks `prev`: the last block grows when `r`
   * is in its zone, otherwise `r` starts a new block.
   */
  function Step(prev: seq<Run>, r: Point): (next: seq<Run>)
    ensures NonEmptyRuns(prev) ==> NonEmptyRuns(next)
  {
    if prev != [] && Last(prev).zone == ZoneOf(r.v) then
      var l := Last(prev);
      var next := prev[..|prev| - 1] + [Run(l.points + [r], l.zone)];
      assert forall j :: 0 <= j < |prev| - 1 ==> next[j] == prev[j];
      next
    else
      var next := prev + [Run([r], ZoneOf(r.v))];
      assert forall j :: 0 <= j < |prev| ==> next[j] == prev[j];
      next
  }

  /** The maximal same-zone blocks of `rs`, from left to right. */
  function Runs(rs: seq<Point>): (runs: seq<Run>)
    ensures NonEmptyRuns(runs)
  {
    if rs == [] then [] else Step(Runs(rs[..|rs| - 1]), rs[|rs| - 1])
  }

  lemma RunsSnoc(rs: seq<Point>, r: Point)
    ensures Runs(rs + [r]) == Step(Runs(rs), r)
  {
    assert (rs + [r])[..|rs|] == rs;
  }

  /** The readings of the blocks, concatenated in order. */
  function Flatten(runs: seq<Run>): seq<Point>
  {
    if runs == [] then [] else Flatten(runs[..|runs| - 1]) + Last(runs).points
  }

  predicate NonEmptyRuns(runs: seq<Run>)
  {
    forall j :: 0 <= j < |runs| ==> runs[j].points != []
  }

  /** Every block holds only readings of its own zone. */
  ghost predicate ZonesTagged(runs: seq<Run>)
  {
    forall j, p :: 0 <= j < |runs| && p in runs[j].points ==> ZoneOf(p.v) == runs[j].zone
  }

  /** Neighbouring blocks differ in zone. */
  ghost predicate ZonesAlternate(runs: seq<Run>)
  {
    forall j :: 0 <= j < |runs| - 1 ==> runs[j].zone != runs[j + 1].zone
  }

  /**
   * `runs` partitions `rs` into maximal same-zone blocks: the blocks are
   * non-empty, concatenate to `rs`, hold only readings of their own zone,
   * and neighbouring blocks differ in zone.
   */
  ghost predicate Partition(rs: seq<Point>, runs: seq<Run>)
  {
    Flatten(runs) == rs && NonEmptyRuns(runs) && ZonesTagged(runs) && ZonesAlternate(runs)
  }

  lemma FlattenSnoc(runs: seq<Run>, x: Run)
    ensures Flatten(runs + [x]) == Flatten(runs) + x.points
  {
    assert (runs + [x])[..|runs|] == runs;
  }

  /** What `Step` leaves unchanged: every block but the last one. */
  lemma StepKeeps(prev: seq<Run>, r: Point)
    ensures |Step(prev, r)| >= |prev|
    ensures forall j :: 0 <= j < |prev| - 1 ==> Step(prev, r)[j] == prev[j]
    ensures var next := Step(prev, r);
      if prev != [] && Last(prev).zone == ZoneOf(r.v) then
        |next| == |prev| && Last(next) == Run(Last(prev).points + [r], Last(prev).zone)
      else
        |next| == |prev| + 1 && Last(next) == Run([r], ZoneOf(r.v)) &&
        (prev != [] ==> next[|prev| - 1] == Last(prev))
  {
  }

  /** Adding a reading to a partition with `Step` gives a partition again. */
  lemma StepPartition(rs: seq<Point>, prev: seq<Run>, r: Point)
    requires Partition(rs, prev)
    ensures Partition(rs + [r], Step(prev, r))
  {
    var next := Step(prev, r);
    StepKeeps(prev, r);
    if prev != [] && Last(prev).zone == ZoneOf(r.v) {
      var front, l := prev[..|prev| - 1], Last(prev);
      assert prev == front + [l];
      assert next == front + [Run(l.points + [r], l.zone)];
      FlattenSnoc(front, l);
      FlattenSnoc(front, Run(l.points + [r], l.zone));
    } else {
      FlattenSnoc(prev, Run([r], ZoneOf(r.v)));
    }
    forall j, p | 0 <= j < |next| && p in next[j].points
      ensures ZoneOf(p.v) == next[j].zone
    {
      if j < |prev| - 1 {
        assert next[j] == prev[j];
      }
    }
    forall j | 0 <= j < |next| - 1
      ensures next[j].zone != next[j + 1].zone
    {
      if j + 1 < |prev| - 1 {
        assert next[j] == prev[j] && next[j + 1] == prev[j + 1];
      }
    }
  }

  /** The last block ends with the last reading and carries its zone. */
  lemma RunsLast(rs: seq<Point>)
    requires rs != []
    ensures Runs(rs) != []
    ensures Last(Runs(rs)).points != [] && Last(Last(Runs(rs)).points) == Last(rs)
    ensures Last(Runs(rs)).zone == ZoneOf(Last(rs).v)
  {
    StepKeeps(Runs(rs[..|rs| - 1]), Last(rs));
  }

  /** The last block carries the zone of the last reading. */
  lemma RunsLastZone(rs: seq<Point>)
    requires rs != []
    ensures Runs(rs) != [] && Last(Runs(rs)).zone == ZoneOf(Last(rs).v)
  {
    RunsLast(rs);
  }

  /** `Runs` partitions its input into maximal same-zone blocks. */
  lemma {:induction false} RunsPartition(rs: seq<Point>)
    ensures Partition(rs, Runs(rs))
  {
    if rs != [] {
      var init := rs[..|rs| - 1];
      assert rs == init + [Last(rs)];
      RunsPartition(init);
      StepPartition(init, Runs(init), Last(rs));
    }
  }

  /** Number of neighbouring pairs of readings whose zones differ. */
  function Changes(rs: seq<Point>): nat
  {
    if |rs| < 2 then 0
    else (if ZoneOf(rs[0].v) != ZoneOf(rs[1].v) then 1 else 0) + Changes(rs[1..])
  }

  lemma {:induction false} ChangesSnoc(rs: seq<Point>, r: Point)
    requires rs != []
    ensures Changes(rs + [r]) == Changes(rs) + if ZoneOf(Last(rs).v) != ZoneOf(r.v) then 1 else 0
  {
    if |rs| > 1 {
      assert (rs + [r])[1..] == rs[1..] + [r];
      ChangesSnoc(rs[1..], r);
    }
  }

  /** One block, plus one more for every zone change between neighbours. */
  lemma {:induction false} RunsCount(rs: seq<Point>)
    ensures |Runs(rs)| == if rs == [] then 0 else 1 + Changes(rs)
  {
    if rs != [] {
      var init, r := rs[..|rs| - 1], Last(rs);
      assert rs == init + [r];
      StepKeeps(Runs(init), r);
      if init != [] {
        RunsCount(init);
        RunsLast(init);
        ChangesSnoc(init, r);
      }
    }
  }

  /** Blocks in time order: each sorted, each ending no later than the next begins. */
  ghost predicate RunsInTimeOrder(runs: seq<Run>)
    requires NonEmptyRuns(runs)
  {
    && (forall j :: 0 <= j < |runs| ==> SortedByTime(runs[j].points))
    && (forall j :: 0 <= j < |runs| - 1 ==> Last(runs[j].points).t <= runs[j + 1].points[0].t)
  }

  /** The last reading of a partition is the last reading of its last block. */
  lemma PartitionLast(rs: seq<Point>, prev: seq<Run>)
    requires Partition(rs, prev) && prev != []
    ensures rs != [] && Last(Last(prev).points) == Last(rs)
  {
    var front, l := prev[..|prev| - 1], Last(prev);
    assert prev == front + [l];
    FlattenSnoc(front, l);
  }

  /** `Step` keeps the blocks in time order when `r` comes no earlier than the last reading. */
  lemma StepOrdered(prev: seq<Run>, r: Point)
    requires NonEmptyRuns(prev) && RunsInTimeOrder(prev)
    requires prev != [] ==> Last(Last(prev).points).t <= r.t
    ensures NonEmptyRuns(Step(prev, r)) && RunsInTimeOrder(Step(prev, r))
  {
    StepKeeps(prev, r);
    var next := Step(prev, r);
    forall j | 0 <= j < |next|
      ensures SortedByTime(next[j].points)
    {
      if j < |prev| - 1 {
        assert next[j] == prev[j];
      } else if j == |prev| - 1 && |next| > |prev| {
        assert next[j] == Last(prev);
      }
    }
    forall j | 0 <= j < |next| - 1
      ensures Last(next[j].points).t <= next[j + 1].points[0].t
    {
      if j + 1 < |prev| - 1 {
        assert next[j] == prev[j] && next[j + 1] == prev[j + 1];
      } else if j + 1 == |prev| - 1 {
        assert next[j] == prev[j] && next[j + 1].points[0] == prev[j + 1].points[0];
      }
    }
  }

  lemma StepInTimeOrder(rs: seq<Point>, prev: seq<Run>, r: Point)
    requires Partition(rs, prev) && RunsInTimeOrder(prev)
    requires rs != [] ==> Last(rs).t <= r.t
    ensures Partition(rs + [r], Step(prev, r)) && RunsInTimeOrder(Step(prev, r))
  {
    StepPartition(rs, prev, r);
    if prev != [] {
      PartitionLast(rs, prev);
    }
    StepOrdered(prev, r);
  }

  /** With readings sorted by time, the blocks are in time order. */
  lemma {:induction false} RunsSorted(rs: seq<Point>)
    requires SortedByTime(rs)
    ensures Partition(rs, Runs(rs)) && RunsInTimeOrder(Runs(rs))
  {
    if rs != [] {
      var init := rs[..|rs| - 1];
      assert rs == init + [Last(rs)];
      assert SortedByTime(init);
      RunsSorted(init);
      if init != [] {
        assert Last(init) == rs[|rs| - 2];
      }
      StepInTimeOrder(init, Runs(init), Last(rs));
    }
  }

  // ---------------------------------------------------------------------
  // Segments: blocks joined at their crossing points

  /** The crossing point between the last reading of `a` and the first of `b`. */
  function Cross(a: Run, b: Run): Point
    requires a.points != [] && b.points != []
  {
    CrossingPoint(Last(a.points).t, b.points[0].t, Last(a.points).v, b.points[0].v)
  }

  /** The crossing point a block starts with: none for the first block. */
  function Lead(runs: seq<Run>, j: nat): seq<Point>
    requires NonEmptyRuns(runs) && j < |runs|
  {
    if j > 0 then [Cross(runs[j - 1], runs[j])] else []
  }

  /** The crossing point a block ends with: none for the last block. */
  function Trail(runs: seq<Run>, j: nat): seq<Point>
    requires NonEmptyRuns(runs) && j < |runs|
  {
    if j < |runs| - 1 then [Cross(runs[j], runs[j + 1])] else []
  }

  function Decorate(runs: seq<Run>): seq<Segment>
    requires NonEmptyRuns(runs)
  {
    seq(|runs|, j requires 0 <= j < |runs| =>
      Segment(Lead(runs, j) + runs[j].points + Trail(runs, j), runs[j].zone))
  }

  /** The segments the glucose line of `rs` is drawn with. */
  function Segments(rs: seq<Point>): seq<Segment>
  {
    Decorate(Runs(rs))
  }

  lemma SegmentsOfOne(r: Point)
    ensures Segments([r]) == [Segment([r], ZoneOf(r.v))]
  {
    assert [r][..0] == [];
    assert Runs([r]) == [Run([r], ZoneOf(r.v))];
    assert [] + [r] + [] == [r];
  }

  /** `Step` extends the last block: only the last segment changes, by one more reading. */
  lemma DecorateGrow(prev: seq<Run>, r: Point)
    requires NonEmptyRuns(prev) && prev != [] && Last(prev).zone == ZoneOf(r.v)
    ensures NonEmptyRuns(Step(prev, r)) && Decorate(prev) != []
    ensures Decorate(Step(prev, r)) == Extend(Decorate(prev), r)
  {
    var m, l := |prev|, Last(prev);
    var runs := Step(prev, r);
    StepKeeps(prev, r);
    assert runs[m - 1].points[0] == l.points[0];
    var segs, next := Decorate(prev), Decorate(runs);
    var want := Extend(segs, r);
    forall j | 0 <= j < m
      ensures next[j] == want[j]
    {
      if j > 0 {
        assert runs[j - 1] == prev[j - 1];
      }
      assert Lead(runs, j) == Lead(prev, j);
      if j < m - 1 {
        assert runs[j] == prev[j];
        if j + 1 < m - 1 {
          assert runs[j + 1] == prev[j + 1];
        }
        assert Trail(runs, j) == Trail(prev, j);
      } else {
        assert next[j].points == Lead(prev, j) + l.points + [r];
      }
    }
  }

  /**
   * `Step` starts a new block: the last segment is closed at the crossing
   * point and a new segment runs from that point to the reading.
   */
  lemma DecorateStart(prev: seq<Run>, r: Point)
    requires NonEmptyRuns(prev) && prev != [] && Last(prev).zone != ZoneOf(r.v)
    ensures NonEmptyRuns(Step(prev, r)) && Decorate(prev) != []
    ensures Decorate(Step(prev, r)) == Close(Decorate(prev), Cross(Last(prev), Run([r], ZoneOf(r.v))), r)
  {
    var m := |prev|;
    var started := Run([r], ZoneOf(r.v));
    var runs := Step(prev, r);
    StepKeeps(prev, r);
    var c := Cross(Last(prev), started);
    var segs, next := Decorate(prev), Decorate(runs);
    var want := Close(segs, c, r);
    forall j | 0 <= j < m + 1
      ensures next[j] == want[j]
    {
      if j < m {
        assert runs[j] == prev[j];
        if j > 0 {
          assert runs[j - 1] == prev[j - 1];
        }
        assert Lead(runs, j) == Lead(prev, j);
        if j < m - 1 {
          assert runs[j + 1] == prev[j + 1];
          assert Trail(runs, j) == Trail(prev, j);
        }
      } else {
        assert runs[j - 1] == Last(prev);
      }
    }
  }

  /** The last segment grown by one more point. */
  function Extend(segs: seq<Segment>, p: Point): seq<Segment>
    requires segs != []
  {
    segs[..|segs| - 1] + [Segment(Last(segs).points + [p], Last(segs).zone)]
  }

  /**
   * The last segment closed at the crossing point `c`, followed by a new
   * segment that starts at `c` and continues with the reading `r`.
   */
  function Close(segs: seq<Segment>, c: Point, r: Point): seq<Segment>
    requires segs != []
  {
    segs[..|segs| - 1] + [Segment(Last(segs).points + [c], Last(segs).zone), Segment([c, r], ZoneOf(r.v))]
  }

  /** A reading in the zone of the last segment extends that segment. */
  lemma SegmentsGrow(rs: seq<Point>, r: Point)
    requires rs != [] && ZoneOf(r.v) == ZoneOf(Last(rs).v)
    ensures Segments(rs) != []
    ensures Segments(rs + [r]) == Extend(Segments(rs), r)
  {
    var prev := Runs(rs);
    RunsLastZone(rs);
    RunsSnoc(rs, r);
    DecorateGrow(prev, r);
  }

  /**
   * A reading in another zone than the last segment closes that segment at
   * the crossing point with the previous reading and opens a new segment
   * that starts at that point and continues with the reading.
   */
  lemma SegmentsCut(rs: seq<Point>, r: Point)
    requires rs != [] && ZoneOf(r.v) != ZoneOf(Last(rs).v)
    ensures Segments(rs) != []
    ensures Segments(rs + [r]) == Close(Segments(rs), CrossingPoint(Last(rs).t, r.t, Last(rs).v, r.v), r)
  {
    var prev := Runs(rs);
    RunsLast(rs);
    RunsSnoc(rs, r);
    DecorateStart(prev, r);
  }

  /**
   * The program's pass over the readings: grow the open segment while the
   * zone stays the same; on a zone change close it at the crossing point
   * and open the next segment at that same point.
   */
  method BuildSegments(readings: seq<Point>) returns (segments: seq<Segment>)
    ensures segments == Segments(readings)
  {
    if readings == [] {
      return [];
    }
    segments := [];
    var seg := [readings[0]];
    var segZone := ZoneOf(readings[0].v);
    SegmentsOfOne(readings[0]);
    assert readings[..1] == [readings[0]];
    for pt := 1 to |readings|
      invariant segments + [Segment(seg, segZone)] == Segments(readings[..pt])
      invariant segZone == ZoneOf(readings[pt - 1].v)
    {
      assert readings[..pt + 1] == readings[..pt] + [readings[pt]];
      assert Last(readings[..pt]) == readings[pt - 1];
      if ZoneOf(readings[pt].v) == segZone {
        SegmentsGrow(readings[..pt], readings[pt]);
        seg := seg + [readings[pt]];
      } else {
        SegmentsCut(readings[..pt], readings[pt]);
        var cross := CrossingPoint(readings[pt - 1].t, readings[pt].t, readings[pt - 1].v, readings[pt].v);
        seg := seg + [cross];
        segments := segments + [Segment(seg, segZone)];
        seg := [cross, readings[pt]];
        segZone := ZoneOf(readings[pt].v);
      }
    }
    segments := segments + [Segment(seg, segZone)];
    assert readings[..|readings|] == readings;
  }

  // ---------------------------------------------------------------------
  // What the segments promise

  /**
   * The original readings a segment holds: its points without the crossing
   * point it shares with the previous segment (if any) and the one it
   * shares with the next segment (if any).
   */
  function Inner(segs: seq<Segment>, j: nat): seq<Point>
    requires j < |segs|
  {
    var lo := if j > 0 then 1 else 0;
    var hi := |segs[j].points| - (if j < |segs| - 1 then 1 else 0);
    if lo <= hi then segs[j].points[lo..hi] else []
  }

  /** The readings of the first `k` segments, crossing points removed. */
  function StripUpTo(segs: seq<Segment>, k: nat): seq<Point>
    requires k <= |segs|
  {
    if k == 0 then [] else StripUpTo(segs, k - 1) + Inner(segs, k - 1)
  }

  lemma DecorateInner(runs: seq<Run>, j: nat)
    requires NonEmptyRuns(runs) && j < |runs|
    ensures Inner(Decorate(runs), j) == runs[j].points
  {
    var pts := Decorate(runs)[j].points;
    assert pts == Lead(runs, j) + runs[j].points + Trail(runs, j);
    var lo := |Lead(runs, j)|;
    assert pts[lo..lo + |runs[j].points|] == runs[j].points;
  }

  lemma {:induction false} StripDecorate(runs: seq<Run>, k: nat)
    requires NonEmptyRuns(runs) && k <= |runs|
    ensures StripUpTo(Decorate(runs), k) == Flatten(runs[..k])
  {
    if k > 0 {
      StripDecorate(runs, k - 1);
      DecorateInner(runs, k - 1);
      assert runs[..k][..k - 1] == runs[..k - 1];
    }
  }

  /** There are no segments for no readings, else one plus one per zone change. */
  lemma SegmentCount(rs: seq<Point>)
    ensures |Segments(rs)| == if rs == [] then 0 else 1 + Changes(rs)
  {
    RunsCount(rs);
  }

  /**
   * Removing the crossing points and concatenating the segments gives back
   * the readings, in their order; every segment holds at least one reading,
   * and all of them lie in the segment's zone.
   */
  lemma SegmentsRecover(rs: seq<Point>)
    ensures StripUpTo(Segments(rs), |Segments(rs)|) == rs
    ensures forall j :: 0 <= j < |Segments(rs)| ==>
              Inner(Segments(rs), j) != [] &&
              forall p :: p in Inner(Segments(rs), j) ==> ZoneOf(p.v) == Segments(rs)[j].zone
  {
    var runs := Runs(rs);
    RunsPartition(rs);
    StripDecorate(runs, |runs|);
    assert runs[..|runs|] == runs;
    forall j | 0 <= j < |runs|
      ensures Inner(Segments(rs), j) == runs[j].points
    {
      DecorateInner(runs, j);
    }
  }

  /**
   * Neighbouring segments differ in zone and are joined: the last point of
   * one is the first point of the next, its value is a threshold, and it is
   * the crossing point between the last reading of the one and the first
   * reading of the next.
   */
  lemma SegmentsJoined(rs: seq<Point>, segs: seq<Segment>, j: nat)
    requires segs == Segments(rs) && j + 1 < |segs|
    ensures segs[j].zone != segs[j + 1].zone
    ensures segs[j].points != [] && segs[j + 1].points != []
    ensures Last(segs[j].points) == segs[j + 1].points[0]
    ensures segs[j + 1].points[0].v == GlucoseMin || segs[j + 1].points[0].v == GlucoseMax
    ensures Inner(segs, j) != [] && Inner(segs, j + 1) != []
    ensures var a, b := Last(Inner(segs, j)), Inner(segs, j + 1)[0];
      segs[j + 1].points[0] == CrossingPoint(a.t, b.t, a.v, b.v)
  {
    var runs := Runs(rs);
    RunsPartition(rs);
    DecorateInner(runs, j);
    DecorateInner(runs, j + 1);
    assert segs[j].points == Lead(runs, j) + runs[j].points + [Cross(runs[j], runs[j + 1])];
    assert segs[j + 1].points == [Cross(runs[j], runs[j + 1])] + runs[j + 1].points + Trail(runs, j + 1);
  }

  /** The segments start at the first reading and end at the last one. */
  lemma SegmentsSpan(rs: seq<Point>)
    requires rs != []
    ensures Segments(rs) != []
    ensures Segments(rs)[0].points != [] && Segments(rs)[0].points[0] == rs[0]
    ensures Last(Segments(rs)).points != [] && Last(Last(Segments(rs)).points) == Last(rs)
  {
    var runs, segs := Runs(rs), Segments(rs);
    RunsPartition(rs);
    RunsLast(rs);
    SegmentsRecover(rs);
    DecorateInner(runs, 0);
    assert segs[0].points == runs[0].points + Trail(runs, 0);
    assert StripUpTo(segs, 1) == Inner(segs, 0);
    StripPrefix(segs, 1, |segs|);
    assert rs[0] == runs[0].points[0];
    assert Last(segs).points == Lead(runs, |runs| - 1) + Last(runs).points;
  }

  /** The stripped readings of fewer segments are a prefix of those of more. */
  lemma {:induction false} StripPrefix(segs: seq<Segment>, k: nat, n: nat)
    requires k <= n <= |segs|
    ensures StripUpTo(segs, k) <= StripUpTo(segs, n)
  {
    if k < n {
      StripPrefix(segs, k, n - 1);
    }
  }

  lemma SortedConcat(a: seq<Point>, b: seq<Point>)
    requires SortedByTime(a) && SortedByTime(b)
    requires a != [] && b != [] ==> Last(a).t <= b[0].t
    ensures SortedByTime(a + b)
  {
    var ab := a + b;
    forall i | 0 <= i < |ab| - 1
      ensures ab[i].t <= ab[i + 1].t
    {
      if i + 1 < |a| {
        assert ab[i] == a[i] && ab[i + 1] == a[i + 1];
      } else if i >= |a| {
        assert ab[i] == b[i - |a|] && ab[i + 1] == b[i + 1 - |a|];
      }
    }
  }

  /** With readings sorted by time, every segment's points are sorted by time. */
  lemma SegmentsSorted(rs: seq<Point>, j: nat)
    requires SortedByTime(rs) && j < |Segments(rs)|
    ensures SortedByTime(Segments(rs)[j].points)
  {
    var runs := Runs(rs);
    RunsSorted(rs);
    var pts := runs[j].points;
    assert Last(pts) in pts && pts[0] in pts;
    if j > 0 {
      var a, b := Last(runs[j - 1].points), pts[0];
      assert a in runs[j - 1].points;
      CrossingWithinPair(a.t, b.t, a.v, b.v);
    }
    if j < |runs| - 1 {
      var a, b := Last(pts), runs[j + 1].points[0];
      assert b in runs[j + 1].points;
      CrossingWithinPair(a.t, b.t, a.v, b.v);
    }
    SortedConcat(Lead(runs, j), pts);
    SortedConcat(Lead(runs, j) + pts, Trail(runs, j));
  }

  /** Readings that all share one zone have no zone change. */
  lemma {:induction false} NoChangesInOneZone(rs: seq<Point>, z: Zone)
    requires forall i :: 0 <= i < |rs| ==> ZoneOf(rs[i].v) == z
    ensures Changes(rs) == 0
  {
    if |rs| >= 2 {
      NoChangesInOneZone(rs[1..], z);
    }
  }

  /**
   * Readings that never leave one zone (for example, all exactly at a
   * threshold) are drawn as a single segment.
   */
  lemma OneZoneOneSegment(rs: seq<Point>, z: Zone)
    requires rs != [] && forall i :: 0 <= i < |rs| ==> ZoneOf(rs[i].v) == z
    ensures |Segments(rs)| == 1
  {
    NoChangesInOneZone(rs, z);
    SegmentCount(rs);
  }

  /**
   * The worked example: readings 3, 5, 12 and 7 change zone three times and
   * are drawn as four segments; the first crossing, at 4, lies halfway
   * between the first two readings.
   */
  lemma SegmentsExample()
    ensures |Segments([Point(0.0, 3.0), Point(2.0, 5.0), Point(4.0, 12.0), Point(6.0, 7.0)])| == 4
    ensures CrossingPoint(0.0, 2.0, 3.0, 5.0) == Point(1.0, 4.0)
  {
    var rs := [Point(0.0, 3.0), Point(2.0, 5.0), Point(4.0, 12.0), Point(6.0, 7.0)];
    SegmentCount(rs);
    assert Changes(rs[2..]) == 1;
  }

}
