/** The segment planner of convert_video_to_gif (core/video_processor.py,
    lines 114-136): given the duration of the trimmed clip and a split policy it
    lists the (index, start, end) triples that are rendered one by one.
    Durations are exact reals; the Python code computes them in floating point. */
module Segments {
  import opened Wrappers

  /** One planned output unit: times are seconds on the trimmed clip. */
  datatype Segment = Segment(index: nat, start: real, end: real)

  /** The split policy after the driver has resolved split_duration against
      split_count: split_duration wins whenever it is given. */
  datatype SplitPolicy = ByDuration(seconds: real) | ByCount(count: int)

  /** The only way planning itself fails: duration / split_count with a zero count. */
  datatype PlanError = ZeroDivision

  function Min(a: real, b: real): real
  {
    if a <= b then a else b
  }

  // ---------------------------------------------------------------------------
  // The by-duration cursor
  // ---------------------------------------------------------------------------

  /** The cursor after i full steps from 0, by repeated addition as the Python
      loop computes it; under exact arithmetic this is i * step. */
  function Reach(i: nat, step: real): real
  {
    if i == 0 then 0.0 else Reach(i - 1, step) + step
  }

  lemma {:induction false} ReachIsMultiple(i: nat, step: real)
    ensures Reach(i, step) == i as real * step
  {
    if i > 0 {
      ReachIsMultiple(i - 1, step);
      assert (i - 1) as real * step + step == i as real * step;
    }
  }

  lemma {:induction false} ReachMonotone(a: nat, b: nat, step: real)
    requires a <= b && step > 0.0
    ensures Reach(a, step) <= Reach(b, step)
    ensures a < b ==> Reach(a, step) < Reach(b, step)
    decreases b - a
  {
    if a < b {
      ReachMonotone(a, b - 1, step);
    }
  }

  lemma MultipleMonotone(a: int, b: int, step: real)
    requires a <= b && step > 0.0
    ensures a as real * step <= b as real * step
  {
    var d := (b - a) as real;
    assert d * step >= 0.0;
    assert b as real * step == a as real * step + d * step;
  }

  lemma ScaleMonotone(a: real, b: real, c: real)
    requires a <= b && c > 0.0
    ensures a * c <= b * c
    ensures a < b ==> a * c < b * c
  {
    assert b * c - a * c == (b - a) * c;
  }

  /** The floor of duration / step brackets the duration between two multiples of step. */
  lemma FloorBrackets(duration: real, step: real)
    requires duration > 0.0 && step > 0.0
    ensures var q := (duration / step).Floor;
      q >= 0 && q as real * step <= duration < (q + 1) as real * step
  {
    var ratio := duration / step;
    var q := ratio.Floor;
    var upper := (q + 1) as real;
    assert ratio * step == duration;
    assert ratio < upper;
    ScaleMonotone(q as real, ratio, step);
    ScaleMonotone(ratio, upper, step);
    assert duration < upper * step;
  }

  /** ceil(duration / step) for a positive step, zero for a non-positive duration:
      the least number of steps whose cursor reaches the duration. */
  ghost function SegmentCount(duration: real, step: real): (n: nat)
    requires step > 0.0
    ensures duration <= 0.0 ==> n == 0
    ensures duration > 0.0 ==> n >= 1 && Reach(n - 1, step) < duration <= Reach(n, step)
  {
    if duration <= 0.0 then 0
    else
      CeilingExists(duration, step);
      var n: nat :| n >= 1 && Reach(n - 1, step) < duration <= Reach(n, step);
      n
  }

  /** Some count of steps brackets every positive duration: floor(duration / step)
      steps when they land on it exactly, one more otherwise. */
  lemma CeilingExists(duration: real, step: real)
    requires duration > 0.0 && step > 0.0
    ensures exists n: nat :: n >= 1 && Reach(n - 1, step) < duration <= Reach(n, step)
  {
    var q := (duration / step).Floor;
    FloorBrackets(duration, step);
    ReachIsMultiple(q, step);
    ReachIsMultiple(q + 1, step);
    if Reach(q, step) == duration {
      assert q >= 1;
      assert Reach(q - 1, step) < duration <= Reach(q, step);
    } else {
      assert Reach(q + 1 - 1, step) < duration <= Reach(q + 1, step);
    }
  }

  /** The count is the ceiling of duration / step in the usual sense. */
  lemma SegmentCountIsCeiling(duration: real, step: real)
    requires duration > 0.0 && step > 0.0
    ensures var n := SegmentCount(duration, step);
      (n - 1) as real * step < duration <= n as real * step
  {
    var n := SegmentCount(duration, step);
    ReachIsMultiple(n - 1, step);
    ReachIsMultiple(n, step);
  }

  /** The cursor after k steps is still short of the duration exactly when k is
      below ceil(duration / step). */
  lemma {:induction false} BelowDurationIffBelowCount(duration: real, step: real, k: nat)
    requires step > 0.0 && duration > 0.0
    ensures Reach(k, step) < duration <==> k < SegmentCount(duration, step)
  {
    var n := SegmentCount(duration, step);
    if k < n {
      ReachMonotone(k, n - 1, step);
    } else {
      ReachMonotone(n, k, step);
    }
  }

  // ---------------------------------------------------------------------------
  // The two plans
  // ---------------------------------------------------------------------------

  /** Reference plan for split_duration = step: segment i spans
      [i * step, min((i + 1) * step, duration)], for i below ceil(duration / step). */
  ghost function DurationPlan(duration: real, step: real): seq<Segment>
    requires step > 0.0
  {
    seq(SegmentCount(duration, step), i requires 0 <= i => DurationSegment(i, duration, step))
  }

  function DurationSegment(i: nat, duration: real, step: real): Segment
  {
    Segment(i, Reach(i, step), Min(Reach(i + 1, step), duration))
  }

  /** Reference plan for split_count = count (count != 0): with d = duration / count,
      segment i spans [i * d, min((i + 1) * d, duration)], for i in range(count);
      a negative count gives an empty range. */
  function CountPlan(duration: real, count: int): seq<Segment>
    requires count != 0
  {
    seq(if count < 0 then 0 else count, i requires 0 <= i => CountSegment(i, duration, count))
  }

  function CountSegment(i: nat, duration: real, count: int): Segment
    requires count != 0
  {
    var segmentDuration := duration / count as real;
    Segment(i, i as real * segmentDuration, Min((i + 1) as real * segmentDuration, duration))
  }

  /** The plan for a resolved policy; a by-duration step must be positive, since
      the Python loop never ends otherwise. */
  ghost function Plan(duration: real, policy: SplitPolicy): Result<seq<Segment>, PlanError>
    requires policy.ByDuration? ==> policy.seconds > 0.0
  {
    match policy
    case ByDuration(step) => Success(DurationPlan(duration, step))
    case ByCount(count) => if count == 0 then Failure(ZeroDivision) else Success(CountPlan(duration, count))
  }

  /** One turn of the by-duration loop: from a cursor below the duration at
      segment i, the segment appended is reference segment i, and the loop goes on
      exactly while reference segments remain. */
  lemma DurationLoopStep(duration: real, step: real, i: nat, cursor: real)
    requires step > 0.0 && 0.0 <= cursor < duration
    requires cursor == if i == 0 then 0.0 else Min(Reach(i, step), duration)
    ensures i < SegmentCount(duration, step)
    ensures DurationSegment(i, duration, step) == Segment(i, cursor, Min(cursor + step, duration))
    ensures Min(cursor + step, duration) < duration <==> i + 1 < SegmentCount(duration, step)
  {
    BelowDurationIffBelowCount(duration, step, i);
    BelowDurationIffBelowCount(duration, step, i + 1);
  }

  /** The by-duration branch of convert_video_to_gif: a cursor advances by step
      and the last end is clamped to the duration. */
  method PlanByDuration(duration: real, step: real) returns (segments: seq<Segment>)
    requires step > 0.0
    ensures segments == DurationPlan(duration, step)
  {
    ghost var n := SegmentCount(duration, step);
    ghost var plan := DurationPlan(duration, step);
    segments := [];
    var currentTime := 0.0;
    var segmentIndex: nat := 0;
    while currentTime < duration
      invariant segmentIndex <= n
      invariant segments == plan[..segmentIndex]
      invariant 0.0 <= currentTime
      invariant currentTime == if segmentIndex == 0 then 0.0 else Min(Reach(segmentIndex, step), duration)
      invariant currentTime < duration <==> segmentIndex < n
      decreases n - segmentIndex
    {
      DurationLoopStep(duration, step, segmentIndex, currentTime);
      var endTime := Min(currentTime + step, duration);
      assert plan[segmentIndex] == Segment(segmentIndex, currentTime, endTime);
      assert plan[..segmentIndex + 1] == segments + [plan[segmentIndex]];
      segments := segments + [Segment(segmentIndex, currentTime, endTime)];
      currentTime := endTime;
      segmentIndex := segmentIndex + 1;
    }
  }

  /** The by-count branch of convert_video_to_gif: divide once, then one segment
      per i in range(count), each end clamped with min. */
  method PlanByCount(duration: real, count: int) returns (r: Result<seq<Segment>, PlanError>)
    ensures r == Plan(duration, ByCount(count))
  {
    if count == 0 {
      return Failure(ZeroDivision);
    }
    var segmentDuration := duration / count as real;
    var segments := [];
    var n := if count < 0 then 0 else count;
    for i := 0 to n
      invariant segments == CountPlan(duration, count)[..i]
    {
      var start := i as real * segmentDuration;
      var end := Min((i + 1) as real * segmentDuration, duration);
      ghost var plan := CountPlan(duration, count);
      assert plan[i] == CountSegment(i, duration, count);
      assert plan[i] == Segment(i, start, end);
      assert plan[..i + 1] == plan[..i] + [plan[i]];
      segments := segments + [Segment(i, start, end)];
    }
    assert segments == CountPlan(duration, count);
    return Success(segments);
  }

  // ---------------------------------------------------------------------------
  // What a plan promises
  // ---------------------------------------------------------------------------

  /** A plan tiles [0, duration]: indices 0..n-1 in order, the first segment starts
      at 0, each segment is non-empty and ends where the next starts, and the last
      ends at the duration. */
  predicate Tiling(segments: seq<Segment>, duration: real)
  {
    && |segments| > 0
    && segments[0].start == 0.0
    && segments[|segments| - 1].end == duration
    && (forall i :: 0 <= i < |segments| ==> segments[i].index == i && segments[i].start < segments[i].end)
    && (forall i :: 0 <= i < |segments| - 1 ==> segments[i].end == segments[i + 1].start)
  }

  /** Segment i of the by-duration plan starts at the cursor after i steps, is
      non-empty, is at most step long, and ends at the next cursor position, or at
      the duration when it is the last one. */
  lemma DurationSegmentShape(i: nat, duration: real, step: real)
    requires step > 0.0 && duration > 0.0 && i < SegmentCount(duration, step)
    ensures var seg := DurationSegment(i, duration, step);
      && seg.start == Reach(i, step) < seg.end
      && seg.end - seg.start <= step
      && (i + 1 < SegmentCount(duration, step) ==> seg.end == Reach(i + 1, step))
      && (i + 1 == SegmentCount(duration, step) ==> seg.end == duration)
  {
    BelowDurationIffBelowCount(duration, step, i);
    BelowDurationIffBelowCount(duration, step, i + 1);
  }

  /** Consecutive by-duration segments meet: each ends where the next starts. */
  lemma DurationPlanContiguous(duration: real, step: real, i: nat)
    requires step > 0.0 && duration > 0.0 && i + 1 < SegmentCount(duration, step)
    ensures DurationPlan(duration, step)[i].end == DurationPlan(duration, step)[i + 1].start
  {
    var plan := DurationPlan(duration, step);
    assert plan[i] == DurationSegment(i, duration, step);
    assert plan[i + 1] == DurationSegment(i + 1, duration, step);
    DurationSegmentShape(i, duration, step);
  }

  /** Planning by duration tiles a positive duration with ceil(duration / step)
      segments, none longer than step. */
  lemma DurationPlanTiles(duration: real, step: real)
    requires step > 0.0 && duration > 0.0
    ensures var plan := DurationPlan(duration, step);
      && Tiling(plan, duration)
      && |plan| == SegmentCount(duration, step)
      && forall i :: 0 <= i < |plan| ==> plan[i].end - plan[i].start <= step
  {
    var plan := DurationPlan(duration, step);
    var n := |plan|;
    forall i | 0 <= i < n
      ensures plan[i].index == i && plan[i].start < plan[i].end
      ensures plan[i].end - plan[i].start <= step
    {
      assert plan[i] == DurationSegment(i, duration, step);
      DurationSegmentShape(i, duration, step);
    }
    forall i | 0 <= i < n - 1
      ensures plan[i].end == plan[i + 1].start
    {
      DurationPlanContiguous(duration, step, i);
    }
    assert plan[0] == DurationSegment(0, duration, step);
    assert plan[n - 1] == DurationSegment(n - 1, duration, step);
    DurationSegmentShape(n - 1, duration, step);
  }

  /** Segment i of the by-count plan starts at i * (duration / count) and ends one
      such length later, which is the duration itself for the last one. */
  lemma CountSegmentShape(i: nat, duration: real, count: int)
    requires duration > 0.0 && 0 <= i < count
    ensures var seg := CountSegment(i, duration, count);
      var d := duration / count as real;
      && seg.start == i as real * d
      && seg.end == seg.start + d
      && (i + 1 == count ==> seg.end == duration)
  {
    var d := duration / count as real;
    assert d > 0.0;
    assert count as real * d == duration;
    MultipleMonotone(i + 1, count, d);
    assert (i + 1) as real * d == i as real * d + d;
  }

  /** Planning by a positive count tiles a positive duration with exactly count
      segments of equal length duration / count. */
  lemma CountPlanTiles(duration: real, count: int)
    requires duration > 0.0 && count >= 1
    ensures var plan := CountPlan(duration, count);
      && |plan| == count
      && Tiling(plan, duration)
      && forall i :: 0 <= i < |plan| ==> plan[i].end - plan[i].start == duration / count as real
  {
    var plan := CountPlan(duration, count);
    var d := duration / count as real;
    assert d > 0.0;
    forall i | 0 <= i < count
      ensures plan[i].index == i
      ensures plan[i].start == i as real * d && plan[i].end == plan[i].start + d
      ensures i + 1 == count ==> plan[i].end == duration
    {
      assert plan[i] == CountSegment(i, duration, count);
      CountSegmentShape(i, duration, count);
    }
    forall i | 0 <= i < count - 1
      ensures plan[i].end == plan[i + 1].start
    {
      assert (i + 1) as real * d == i as real * d + d;
    }
  }

  /** Every segment of a tiling lies inside [0, duration] and the ends strictly
      increase. */
  lemma {:induction false} TilingBounds(segments: seq<Segment>, duration: real)
    requires Tiling(segments, duration)
    ensures forall i :: 0 <= i < |segments| ==> 0.0 <= segments[i].start < segments[i].end <= duration
    ensures forall i, j :: 0 <= i < j < |segments| ==> segments[i].end < segments[j].end
  {
    var n := |segments|;
    forall i | 0 <= i < n
      ensures 0.0 <= segments[i].start
      ensures segments[i].end <= duration
    {
      StartsAscend(segments, duration, 0, i);
      EndsAscend(segments, duration, i, n - 1);
    }
    forall i, j | 0 <= i < j < n
      ensures segments[i].end < segments[j].end
    {
      EndsAscend(segments, duration, i + 1, j);
    }
  }

  lemma {:induction false} StartsAscend(segments: seq<Segment>, duration: real, i: nat, j: nat)
    requires Tiling(segments, duration) && i <= j < |segments|
    ensures segments[i].start <= segments[j].start
    decreases j - i
  {
    if i < j {
      StartsAscend(segments, duration, i + 1, j);
      assert segments[i].end == segments[i + 1].start;
    }
  }

  lemma {:induction false} EndsAscend(segments: seq<Segment>, duration: real, i: nat, j: nat)
    requires Tiling(segments, duration) && i <= j < |segments|
    ensures segments[i].end <= segments[j].end
    ensures i > 0 ==> segments[i - 1].end < segments[j].end
    decreases j - i
  {
    if i < j {
      EndsAscend(segments, duration, i + 1, j);
      assert segments[i].end == segments[i + 1].start;
    }
    if i > 0 {
      assert segments[i - 1].end == segments[i].start;
    }
  }

  /** A duration no longer than one step gives a single segment covering it all. */
  lemma ShortClipIsOneSegment(duration: real, step: real)
    requires 0.0 < duration <= step
    ensures DurationPlan(duration, step) == [Segment(0, 0.0, duration)]
  {
    var n := SegmentCount(duration, step);
    BelowDurationIffBelowCount(duration, step, 1);
  }

  /** Twelve seconds in five-second steps: two full segments and a two-second tail. */
  lemma TwelveSecondsByFive()
    ensures DurationPlan(12.0, 5.0) == [Segment(0, 0.0, 5.0), Segment(1, 5.0, 10.0), Segment(2, 10.0, 12.0)]
  {
    BelowDurationIffBelowCount(12.0, 5.0, 2);
    BelowDurationIffBelowCount(12.0, 5.0, 3);
    assert SegmentCount(12.0, 5.0) == 3;
  }

  /** Ten seconds in three parts: thirds, the last ending at exactly 10. */
  lemma TenSecondsInThree()
    ensures CountPlan(10.0, 3) == [Segment(0, 0.0, 10.0 / 3.0), Segment(1, 10.0 / 3.0, 20.0 / 3.0), Segment(2, 20.0 / 3.0, 10.0)]
  {
  }
}
