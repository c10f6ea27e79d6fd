/** The timeline endpoint: the last `hours` hours cut into buckets of
    `interval` minutes, newest first, each counting the three event types
    with an inclusive range query on the secondary index; the points are
    then sorted oldest first.

    The clock is one `now` parameter (seconds); which bucket results and
    which per-type queries fail is given as input, and a failure counts 0. */
module VisualizationApi {
  import opened GitHubEvents
  import opened Sorting
  import opened EventIndex

  const MaxHours: nat := 168
  const MaxIntervalMinutes: nat := 1440
  const MaxDataPoints: nat := 100
  const DefaultHours: nat := 24
  const DefaultIntervalMinutes: nat := 60

  /** One data point. Its `timestamp` in the response is `start`. */
  datatype Point = Point(start: int, end: int, counts: map<string, nat>)

  /** Which results are lost: whole buckets whose result does not arrive, and
      single (bucket, event type) queries that fail. */
  datatype TimelineFaults = TimelineFaults(failedBuckets: set<nat>, failedCells: set<(nat, string)>)

  /** `min(hours * 60 // interval, 100)`. */
  function NumIntervals(hours: nat, intervalMinutes: nat): (n: nat)
    requires intervalMinutes > 0
    ensures n <= MaxDataPoints
  {
    var fit := hours * 60 / intervalMinutes;
    if fit < MaxDataPoints then fit else MaxDataPoints
  }

  /** There is no bucket exactly when one interval is longer than the window,
      and the buckets never reach back further than the window. */
  lemma NumIntervalsBounds(hours: nat, intervalMinutes: nat)
    requires intervalMinutes > 0
    ensures NumIntervals(hours, intervalMinutes) == 0 <==> intervalMinutes > hours * 60
    ensures NumIntervals(hours, intervalMinutes) * intervalMinutes <= hours * 60
  {
    var total := hours * 60;
    var q := total / intervalMinutes;
    var n := NumIntervals(hours, intervalMinutes);
    DivFloor(total, intervalMinutes);
    MulMonotone(n, q, intervalMinutes);
  }

  /** Facts about floor division of naturals used above. */
  lemma DivFloor(total: nat, w: nat)
    requires w > 0
    ensures (total / w) * w <= total
    ensures total / w == 0 <==> total < w
  {
    var q, r := total / w, total % w;
    assert q * w + r == total && 0 <= r < w;
    if q >= 1 {
      MulMonotone(1, q, w);
    }
  }

  lemma MulMonotone(a: nat, b: nat, c: nat)
    requires a <= b
    ensures a * c <= b * c
  {
    assert b * c == a * c + (b - a) * c;
  }

  /** Bucket `i` ends `i` intervals before `now` and is one interval long. */
  function IntervalEnd(now: int, intervalMinutes: nat, i: nat): int {
    now - i * (intervalMinutes * 60)
  }

  function IntervalStart(now: int, intervalMinutes: nat, i: nat): int {
    IntervalEnd(now, intervalMinutes, i) - intervalMinutes * 60
  }

  /** What one (bucket, type) cell reports: 0 when its query fails, otherwise
      the entries of that type in the closed range. */
  function CellCount(index: seq<IndexEntry>, t: string, start: int, end: int, failed: bool): nat {
    if failed then 0 else CountBetween(index, t, start, end)
  }

  /** The data point of bucket `i`. */
  function BucketPoint(now: int, intervalMinutes: nat, i: nat, index: seq<IndexEntry>, faults: TimelineFaults): Point {
    var start := IntervalStart(now, intervalMinutes, i);
    var end := IntervalEnd(now, intervalMinutes, i);
    Point(start, end, map t | t in EventTypes ::
      CellCount(index, t, start, end, i in faults.failedBuckets || (i, t) in faults.failedCells))
  }

  /** The points of buckets 0 .. n-1 in collection order (newest first). */
  function Buckets(now: int, intervalMinutes: nat, n: nat, index: seq<IndexEntry>, faults: TimelineFaults): (ps: seq<Point>)
    ensures |ps| == n
  {
    seq(n, i requires 0 <= i < n => BucketPoint(now, intervalMinutes, i, index, faults))
  }

  /** A point with the bucket's bounds whose counts are the bucket's cells is
      the bucket's point. */
  lemma BucketPointFrom(now: int, intervalMinutes: nat, i: nat, index: seq<IndexEntry>, faults: TimelineFaults,
                        counts: map<string, nat>)
    requires counts.Keys == set t | t in EventTypes
    requires forall t :: t in counts ==>
      counts[t] == CellCount(index, t, IntervalStart(now, intervalMinutes, i), IntervalEnd(now, intervalMinutes, i),
                             i in faults.failedBuckets || (i, t) in faults.failedCells)
    ensures BucketPoint(now, intervalMinutes, i, index, faults) ==
      Point(IntervalStart(now, intervalMinutes, i), IntervalEnd(now, intervalMinutes, i), counts)
  {
    var m := BucketPoint(now, intervalMinutes, i, index, faults).counts;
    assert m.Keys == counts.Keys;
    assert forall t :: t in m ==> m[t] == counts[t];
  }

  function StartOf(p: Point): int { p.start }

  /** The next-older bucket ends where this one begins. */
  lemma OlderEndsAtStart(now: int, intervalMinutes: nat, i: nat)
    ensures IntervalEnd(now, intervalMinutes, i + 1) == IntervalStart(now, intervalMinutes, i)
  {
    var w := intervalMinutes * 60;
    assert (i + 1) * w == i * w + w;
  }

  /** Every point spans one interval and carries the three types. */
  lemma BucketPointShape(now: int, intervalMinutes: nat, i: nat, index: seq<IndexEntry>, faults: TimelineFaults)
    ensures var p := BucketPoint(now, intervalMinutes, i, index, faults);
      p.end - p.start == intervalMinutes * 60 && p.counts.Keys == {WatchEvent, PullRequestEvent, IssuesEvent}
  {
    assert forall t :: t in EventTypes <==> t == WatchEvent || t == PullRequestEvent || t == IssuesEvent;
  }

  /** In the timeline every point spans one interval and carries the three
      types. */
  lemma TimelinePointsShape(now: int, intervalMinutes: nat, n: nat, index: seq<IndexEntry>, faults: TimelineFaults)
    ensures var tl := Reverse(Buckets(now, intervalMinutes, n, index, faults));
      forall k :: 0 <= k < |tl| ==>
        tl[k].end - tl[k].start == intervalMinutes * 60 &&
        tl[k].counts.Keys == {WatchEvent, PullRequestEvent, IssuesEvent}
  {
    var ps := Buckets(now, intervalMinutes, n, index, faults);
    var tl := Reverse(ps);
    forall k | 0 <= k < |tl|
      ensures tl[k].end - tl[k].start == intervalMinutes * 60
      ensures tl[k].counts.Keys == {WatchEvent, PullRequestEvent, IssuesEvent}
    {
      assert tl[k] == ps[n - 1 - k];
      BucketPointShape(now, intervalMinutes, n - 1 - k, index, faults);
    }
  }

  /** In the timeline each point ends where the next begins, and the newest
      ends at `now`. */
  lemma TimelineContiguous(now: int, intervalMinutes: nat, n: nat, index: seq<IndexEntry>, faults: TimelineFaults)
    ensures var tl := Reverse(Buckets(now, intervalMinutes, n, index, faults));
      && (forall k :: 0 <= k < |tl| - 1 ==> tl[k].end == tl[k + 1].start)
      && (|tl| > 0 ==> tl[|tl| - 1].end == now)
  {
    var ps := Buckets(now, intervalMinutes, n, index, faults);
    var tl := Reverse(ps);
    forall k | 0 <= k < |tl| - 1 ensures tl[k].end == tl[k + 1].start {
      assert tl[k].end == IntervalEnd(now, intervalMinutes, n - 1 - k);
      assert tl[k + 1].start == IntervalStart(now, intervalMinutes, n - 2 - k);
      OlderEndsAtStart(now, intervalMinutes, n - 2 - k);
    }
    if |tl| > 0 {
      assert tl[|tl| - 1] == ps[0];
    }
  }

  /** Later buckets start strictly earlier. */
  lemma BucketStartsDecrease(now: int, intervalMinutes: nat, i: nat, j: nat)
    requires intervalMinutes > 0 && i < j
    ensures IntervalStart(now, intervalMinutes, j) < IntervalStart(now, intervalMinutes, i)
  {
    var w := intervalMinutes * 60;
    assert j * w == i * w + (j - i) * w;
    assert (j - i) * w > 0;
  }

  /** Collected newest first, the points sort into exactly the reverse order. */
  lemma SortedTimelineIsReversed(now: int, intervalMinutes: nat, n: nat, index: seq<IndexEntry>, faults: TimelineFaults)
    requires intervalMinutes > 0
    ensures InsertionSort(Buckets(now, intervalMinutes, n, index, faults), StartOf) ==
            Reverse(Buckets(now, intervalMinutes, n, index, faults))
  {
    var ps := Buckets(now, intervalMinutes, n, index, faults);
    forall i, j | 0 <= i < j < |ps| ensures StartOf(ps[j]) < StartOf(ps[i]) {
      BucketStartsDecrease(now, intervalMinutes, i, j);
    }
    SortStrictlyDecreasing(ps, StartOf);
  }

  /** `get_interval_counts` with `query_interval_count`: one closed-range count
      per type; a failed query counts 0 for its type only. */
  method GetIntervalCounts(types: seq<string>, start: int, end: int, index: seq<IndexEntry>, failedTypes: set<string>)
    returns (counts: map<string, nat>)
    ensures counts.Keys == set t | t in types
    ensures forall t :: t in counts ==> counts[t] == CellCount(index, t, start, end, t in failedTypes)
  {
    counts := map[];
    for i := 0 to |types|
      invariant counts.Keys == set t | t in types[..i]
      invariant forall t :: t in counts ==> counts[t] == CellCount(index, t, start, end, t in failedTypes)
    {
      assert forall t :: t in types[..i + 1] <==> t in types[..i] || t == types[i];
      if types[i] in failedTypes {
        counts := counts[types[i] := 0];
      } else {
        counts := counts[types[i] := CountBetween(index, types[i], start, end)];
      }
    }
    assert types[..|types|] == types;
  }

  /** Builds one point per bucket, newest first, and sorts them by start time.
      The result is every bucket exactly once, oldest first, each one interval
      long and ending where the next begins, the newest ending at `now`. */
  method GetEventTimelineData(hours: nat, intervalMinutes: nat, now: int, index: seq<IndexEntry>, faults: TimelineFaults)
    returns (timeline: seq<Point>)
    requires intervalMinutes > 0
    ensures timeline == Reverse(Buckets(now, intervalMinutes, NumIntervals(hours, intervalMinutes), index, faults))
    ensures |timeline| == NumIntervals(hours, intervalMinutes)
    ensures SortedBy(timeline, StartOf)
    ensures forall k :: 0 <= k < |timeline| ==>
      timeline[k].end - timeline[k].start == intervalMinutes * 60 &&
      timeline[k].counts.Keys == {WatchEvent, PullRequestEvent, IssuesEvent}
    ensures forall k :: 0 <= k < |timeline| - 1 ==> timeline[k].end == timeline[k + 1].start
    ensures |timeline| > 0 ==> timeline[|timeline| - 1].end == now
  {
    var n := NumIntervals(hours, intervalMinutes);
    var collected: seq<Point> := [];
    for i := 0 to n
      invariant collected == Buckets(now, intervalMinutes, i, index, faults)
    {
      var end := now - i * (intervalMinutes * 60);
      var start := end - intervalMinutes * 60;
      var counts: map<string, nat>;
      if i in faults.failedBuckets {
        counts := map t | t in EventTypes :: 0;
      } else {
        var failedTypes := set t | t in EventTypes && (i, t) in faults.failedCells;
        counts := GetIntervalCounts(EventTypes, start, end, index, failedTypes);
      }
      BucketPointFrom(now, intervalMinutes, i, index, faults, counts);
      collected := collected + [Point(start, end, counts)];
      assert collected == Buckets(now, intervalMinutes, i + 1, index, faults) by {
        assert forall k :: 0 <= k < i + 1 ==> collected[k] == Buckets(now, intervalMinutes, i + 1, index, faults)[k];
      }
    }
    timeline := SortBy(collected, StartOf);
    SortedTimelineIsReversed(now, intervalMinutes, n, index, faults);
    TimelinePointsShape(now, intervalMinutes, n, index, faults);
    TimelineContiguous(now, intervalMinutes, n, index, faults);
  }

  /** `sum(sum(point["counts"].values()) for point in timeline)`. */
  function TotalEvents(points: seq<Point>): nat {
    if points == [] then 0 else TotalEvents(points[..|points| - 1]) + SumOver(points[|points| - 1].counts, EventTypes)
  }

  /** Reversing the points keeps the total; on the timeline the sort does
      exactly that (`SortedTimelineIsReversed`), so it keeps the total. */
  lemma {:induction false} TotalEventsReverse(points: seq<Point>)
    ensures TotalEvents(Reverse(points)) == TotalEvents(points)
  {
    if points != [] {
      var init := points[..|points| - 1];
      TotalEventsReverse(init);
      TotalEventsCons(points[|points| - 1], Reverse(init));
      assert Reverse(points) == [points[|points| - 1]] + Reverse(init);
    }
  }

  lemma {:induction false} TotalEventsCons(p: Point, points: seq<Point>)
    ensures TotalEvents([p] + points) == SumOver(p.counts, EventTypes) + TotalEvents(points)
  {
    if points != [] {
      var init := points[..|points| - 1];
      TotalEventsCons(p, init);
      assert ([p] + points)[..|points|] == [p] + init;
    }
  }

  /** A bucket that fails as a whole reports 0 for each of the three types. */
  lemma FailedBucketIsZero(now: int, intervalMinutes: nat, i: nat, index: seq<IndexEntry>, faults: TimelineFaults)
    requires i in faults.failedBuckets
    ensures var p := BucketPoint(now, intervalMinutes, i, index, faults);
      p.counts.Keys == {WatchEvent, PullRequestEvent, IssuesEvent} && forall t :: t in p.counts ==> p.counts[t] == 0
  {
    BucketPointShape(now, intervalMinutes, i, index, faults);
  }

  /** In integer time, with both ends of each bucket's range inclusive, an
      entry created exactly on the boundary of two adjacent buckets is
      counted in both. */
  lemma AdjacentBucketsShareBoundary(now: int, intervalMinutes: nat, i: nat, t: string,
                                     index: seq<IndexEntry>, faults: TimelineFaults)
    requires intervalMinutes > 0 && t in EventTypes
    requires i !in faults.failedBuckets && i + 1 !in faults.failedBuckets
    requires (i, t) !in faults.failedCells && (i + 1, t) !in faults.failedCells
    ensures var newer := BucketPoint(now, intervalMinutes, i, index, faults);
            var older := BucketPoint(now, intervalMinutes, i + 1, index, faults);
            older.end == newer.start &&
            older.counts[t] + newer.counts[t] ==
              CountBetween(index, t, older.start, newer.end) + CountBetween(index, t, newer.start, newer.start)
  {
    var newer := BucketPoint(now, intervalMinutes, i, index, faults);
    var older := BucketPoint(now, intervalMinutes, i + 1, index, faults);
    assert (i + 1) * (intervalMinutes * 60) == i * (intervalMinutes * 60) + intervalMinutes * 60;
    AdjacentRangesShareEndpoint(index, t, older.start, newer.start, newer.end);
  }

  datatype TimelineResponse =
    | HoursNotInteger      // 400
    | HoursOutOfRange      // 400
    | IntervalNotInteger   // 400
    | IntervalOutOfRange   // 400
    | Timeline(startTime: int, endTime: int, hours: nat, intervalMinutes: nat,
               dataPoints: nat, totalEvents: nat, timeline: seq<Point>)   // 200

  /** The value of an integer parameter, its default when absent. */
  function IntOr(p: IntParam, default: int): int
    requires !p.NotAnInteger?
  {
    if p.Absent? then default else p.value
  }

  /** Validates `hours` (1 to 168, default 24) and `interval` (1 to 1440
      minutes, default 60), then returns the sorted timeline with the number
      of points and the total of all counts. */
  method HandleTimelineRequest(hoursParam: IntParam, intervalParam: IntParam, now: int,
                               index: seq<IndexEntry>, faults: TimelineFaults)
    returns (resp: TimelineResponse)
    ensures resp == HoursNotInteger <==> hoursParam.NotAnInteger?
    ensures resp == HoursOutOfRange <==>
      !hoursParam.NotAnInteger? && !(1 <= IntOr(hoursParam, DefaultHours) <= MaxHours)
    ensures resp == IntervalNotInteger <==>
      !hoursParam.NotAnInteger? && 1 <= IntOr(hoursParam, DefaultHours) <= MaxHours && intervalParam.NotAnInteger?
    ensures resp == IntervalOutOfRange <==>
      !hoursParam.NotAnInteger? && 1 <= IntOr(hoursParam, DefaultHours) <= MaxHours && !intervalParam.NotAnInteger? &&
      !(1 <= IntOr(intervalParam, DefaultIntervalMinutes) <= MaxIntervalMinutes)
    ensures resp.Timeline? ==>
      && resp.hours == IntOr(hoursParam, DefaultHours)
      && resp.intervalMinutes == IntOr(intervalParam, DefaultIntervalMinutes)
      && resp.intervalMinutes > 0
      && resp.timeline == Reverse(Buckets(now, resp.intervalMinutes,
                                          NumIntervals(resp.hours, resp.intervalMinutes), index, faults))
      && resp.dataPoints == |resp.timeline| == NumIntervals(resp.hours, resp.intervalMinutes)
      && resp.totalEvents == TotalEvents(resp.timeline)
      && resp.endTime == now && resp.startTime == now - resp.hours * 3600
  {
    var hours: int;
    match hoursParam {
      case Absent => hours := DefaultHours;
      case NotAnInteger => return HoursNotInteger;
      case IntValue(v) => hours := v;
    }
    if hours <= 0 || hours > MaxHours {
      return HoursOutOfRange;
    }
    var intervalMinutes: int;
    match intervalParam {
      case Absent => intervalMinutes := DefaultIntervalMinutes;
      case NotAnInteger => return IntervalNotInteger;
      case IntValue(v) => intervalMinutes := v;
    }
    if intervalMinutes <= 0 || intervalMinutes > MaxIntervalMinutes {
      return IntervalOutOfRange;
    }
    var timeline := GetEventTimelineData(hours, intervalMinutes, now, index, faults);
    return Timeline(now - hours * 3600, now, hours, intervalMinutes, |timeline|, TotalEvents(timeline), timeline);
  }
}
