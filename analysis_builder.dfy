/**
 * The daily analysis builder: yesterday's forecast against yesterday's
 * observations.
 *
 * The forecast entries of yesterday's Brisbane day are collected and
 * converted from km/h to knots, sorted by time and densified onto a
 * 10-minute grid; each observation is then paired with the forecast
 * speed at the nearest forecast time within five minutes, if there is one.
 */
module AnalysisBuilder {

  import opened Wrappers
  import Clock
  import Bisect
  import StableSort
  import opened Densify

  /** km/h to knots, for forecast and observed speeds alike. */
  const KmhToKnots: real := 0.539957

  /** The largest distance, in minutes, at which a forecast time matches. */
  const ToleranceMinutes: real := 5.0

  /** One entry of a forecast day: its `dateTime` and its `speed` in km/h. */
  datatype ForecastEntry = ForecastEntry(dateTime: Clock.IsoStamp, speed: real)

  /** One observed point: `x` in Unix seconds, `y` the speed in km/h. */
  datatype ActualPoint = ActualPoint(x: int, y: real)

  /** A row of the analysis: the observation's "HH:MM", its speed and the matched forecast, in knots. */
  datatype MergedRow = MergedRow(x: Clock.ClockLabel, actual: real, predicted: Option<real>)

  /** A forecast point: time, knots and nothing else. */
  type Point = Sample<()>

  // ---------------------------------------------------------------------
  // The window and the collection loop

  /** Midnight starting yesterday, on the Brisbane wall clock. */
  function WindowStart(nowWall: int): (start: int)
    ensures start % Clock.DaySeconds == 0
    ensures start <= nowWall - Clock.DaySeconds < start + Clock.DaySeconds
  {
    Clock.DayStart(nowWall - Clock.DaySeconds)
  }

  /** The half-open day `[start, start + 1 day)`. */
  predicate InDay(ts: int, start: int) {
    start <= ts < start + Clock.DaySeconds
  }

  /** The point an entry contributes: its Brisbane time and its speed in knots. */
  function Converted(e: ForecastEntry): Point {
    Sample(Clock.ToBrisbane(e.dateTime), e.speed * KmhToKnots, ())
  }

  /** The points one day's entries contribute, in entry order. */
  function CollectedDay(entries: seq<ForecastEntry>, start: int): seq<Point> {
    if |entries| == 0 then []
    else
      var e := entries[|entries| - 1];
      CollectedDay(entries[..|entries| - 1], start) + (if InDay(Clock.ToBrisbane(e.dateTime), start) then [Converted(e)] else [])
  }

  /** The points all days contribute, day by day. */
  function Collected(days: seq<seq<ForecastEntry>>, start: int): seq<Point> {
    if |days| == 0 then []
    else Collected(days[..|days| - 1], start) + CollectedDay(days[|days| - 1], start)
  }

  /** The nested loop over days and entries, appending what lies in the window. */
  method CollectEntries(days: seq<seq<ForecastEntry>>, start: int) returns (raw: seq<Point>)
    ensures raw == Collected(days, start)
  {
    raw := [];
    var d := 0;
    while d < |days|
      invariant 0 <= d <= |days|
      invariant raw == Collected(days[..d], start)
    {
      var entries := days[d];
      ghost var before := raw;
      var k := 0;
      while k < |entries|
        invariant 0 <= k <= |entries|
        invariant raw == before + CollectedDay(entries[..k], start)
      {
        var e := entries[k];
        var ts := Clock.ToBrisbane(e.dateTime);
        if start <= ts < start + Clock.DaySeconds {
          raw := raw + [Sample(ts, e.speed * KmhToKnots, ())];
        }
        assert entries[..k + 1][..k] == entries[..k];
        k := k + 1;
      }
      assert entries[..|entries|] == entries;
      assert days[..d + 1][..d] == days[..d];
      d := d + 1;
    }
    assert days[..|days|] == days;
  }

  /** A day keeps exactly its entries inside the window, converted. */
  lemma {:induction false} CollectedDayIff(entries: seq<ForecastEntry>, start: int, p: Point)
    ensures p in CollectedDay(entries, start) <==>
      exists k :: 0 <= k < |entries| && InDay(Clock.ToBrisbane(entries[k].dateTime), start) && p == Converted(entries[k])
    decreases |entries|
  {
    if |entries| > 0 {
      var init := entries[..|entries| - 1];
      CollectedDayIff(init, start, p);
      if exists k :: 0 <= k < |init| && InDay(Clock.ToBrisbane(init[k].dateTime), start) && p == Converted(init[k]) {
        var k :| 0 <= k < |init| && InDay(Clock.ToBrisbane(init[k].dateTime), start) && p == Converted(init[k]);
        assert entries[k] == init[k];
      }
      if exists k :: 0 <= k < |entries| && InDay(Clock.ToBrisbane(entries[k].dateTime), start) && p == Converted(entries[k]) {
        var k :| 0 <= k < |entries| && InDay(Clock.ToBrisbane(entries[k].dateTime), start) && p == Converted(entries[k]);
        if k < |init| {
          assert init[k] == entries[k];
        }
      }
    }
  }

  /**
   * The collection keeps exactly the entries whose time lies in
   * `[start, start + 1 day)`, each with the time converted to Brisbane
   * and the speed multiplied by 0.539957.
   */
  lemma {:induction false} CollectedIff(days: seq<seq<ForecastEntry>>, start: int, p: Point)
    ensures p in Collected(days, start) <==>
      exists d, k :: 0 <= d < |days| && 0 <= k < |days[d]| &&
        InDay(Clock.ToBrisbane(days[d][k].dateTime), start) && p == Converted(days[d][k])
    decreases |days|
  {
    if |days| > 0 {
      var init, last := days[..|days| - 1], days[|days| - 1];
      CollectedIff(init, start, p);
      CollectedDayIff(last, start, p);
      if p in CollectedDay(last, start) {
        var k :| 0 <= k < |last| && InDay(Clock.ToBrisbane(last[k].dateTime), start) && p == Converted(last[k]);
        assert days[|days| - 1][k] == last[k];
      }
      if p in Collected(init, start) {
        var d, k :| 0 <= d < |init| && 0 <= k < |init[d]| &&
          InDay(Clock.ToBrisbane(init[d][k].dateTime), start) && p == Converted(init[d][k]);
        assert days[d] == init[d];
      }
      if exists d, k :: 0 <= d < |days| && 0 <= k < |days[d]| &&
          InDay(Clock.ToBrisbane(days[d][k].dateTime), start) && p == Converted(days[d][k]) {
        var d, k :| 0 <= d < |days| && 0 <= k < |days[d]| &&
          InDay(Clock.ToBrisbane(days[d][k].dateTime), start) && p == Converted(days[d][k]);
        if d < |init| {
          assert init[d] == days[d];
        } else {
          assert last == days[d];
        }
      }
    }
  }

  // ---------------------------------------------------------------------
  // The forecast series

  /** The collected, sorted and densified forecast (`forecast_points`). */
  function ForecastPoints(days: seq<seq<ForecastEntry>>, start: int): seq<Point> {
    Densified(StableSort.Sorted(Collected(days, start), ByTime))
  }

  /**
   * The forecast series is sorted by time, consecutive points are at most
   * ten minutes apart, and every point lies in the window.
   */
  lemma ForecastPointsOrdered(days: seq<seq<ForecastEntry>>, start: int)
    ensures Chain(ForecastPoints(days, start), false)
    ensures Bisect.NonDecreasing(Times(ForecastPoints(days, start)))
    ensures forall q :: 0 <= q < |ForecastPoints(days, start)| ==> InDay(ForecastPoints(days, start)[q].ts, start)
  {
    var sorted := StableSort.Sorted(Collected(days, start), ByTime);
    SortedInDay(days, start);
    DensifiedChain(sorted, false);
    ChainOrders(Densified(sorted), false);
    DensifiedWithin(sorted, start, start + Clock.DaySeconds);
  }

  /** The sorted collection still lies in the window. */
  lemma SortedInDay(days: seq<seq<ForecastEntry>>, start: int)
    ensures TimesNonDecreasing(StableSort.Sorted(Collected(days, start), ByTime))
    ensures forall j :: 0 <= j < |StableSort.Sorted(Collected(days, start), ByTime)| ==>
      InDay(StableSort.Sorted(Collected(days, start), ByTime)[j].ts, start)
  {
    var raw := Collected(days, start);
    var sorted := StableSort.Sorted(raw, ByTime);
    SortByTimeOrders(raw, Sample(0, 0.0, ()));
    forall j | 0 <= j < |sorted| ensures InDay(sorted[j].ts, start) {
      var p := sorted[j];
      assert p in multiset(raw);
      CollectedIff(days, start, p);
      var d, k :| 0 <= d < |days| && 0 <= k < |days[d]| &&
        InDay(Clock.ToBrisbane(days[d][k].dateTime), start) && p == Converted(days[d][k]);
    }
  }

  /** How far apart two instants are in minutes (`abs(delta.total_seconds()) / 60`). */
  function AbsMinutes(delta: int): real {
    Bisect.Dist(delta, 0) as real / 60.0
  }

  lemma AbsMinutesCompare(d1: int, d2: int)
    ensures AbsMinutes(d1) <= AbsMinutes(d2) <==> Bisect.Dist(d1, 0) <= Bisect.Dist(d2, 0)
    ensures AbsMinutes(d1) <= ToleranceMinutes <==> Bisect.Dist(d1, 0) <= 300
  {
  }

  /**
   * `find_nearest_forecast` on the forecast times, answering with the
   * index whose speed it returns: `bisect_left`, then the first point,
   * the last point, or the nearer of the two neighbours, the earlier one
   * on a tie, provided it is within five minutes.
   */
  function NearestForecastIndex(times: seq<int>, ts: int): (r: Option<nat>)
    ensures r.Some? ==> r.value < |times|
  {
    if |times| == 0 then None
    else
      var i := Bisect.BisectLeft(times, ts, 0, |times|);
      if i == 0 then
        if AbsMinutes(times[0] - ts) <= ToleranceMinutes then Some(0) else None
      else if i == |times| then
        if AbsMinutes(ts - times[|times| - 1]) <= ToleranceMinutes then Some(|times| - 1) else None
      else
        var bdiff, adiff := AbsMinutes(ts - times[i - 1]), AbsMinutes(times[i] - ts);
        if bdiff <= adiff && bdiff <= ToleranceMinutes then Some(i - 1)
        else if adiff <= ToleranceMinutes then Some(i)
        else None
  }

  /** `find_nearest_forecast(ts)`: the forecast speed matched to `ts`, if any. */
  function FindNearestForecast(points: seq<Point>, ts: int): Option<real> {
    match NearestForecastIndex(Times(points), ts)
    case Some(j) => Some(points[j].knots)
    case None => None
  }

  /**
   * On sorted times the lookup finds a point exactly when some time is
   * within five minutes, and the point it finds is at the nearest time,
   * the earlier of two equally near ones. No times: no point.
   */
  lemma NearestForecastSpec(times: seq<int>, ts: int)
    requires Bisect.NonDecreasing(times)
    ensures |times| == 0 ==> NearestForecastIndex(times, ts).None?
    ensures NearestForecastIndex(times, ts).None? <==> forall k :: 0 <= k < |times| ==> Bisect.Dist(times[k], ts) > 300
    ensures NearestForecastIndex(times, ts).Some? ==>
      Bisect.IsEarliestNearest(times, ts, NearestForecastIndex(times, ts).value) &&
      Bisect.Dist(times[NearestForecastIndex(times, ts).value], ts) <= 300
  {
    if |times| > 0 {
      IndexIsCandidate(times, ts);
      CandidateIsEarliestNearest(times, ts);
      WithinTolerance(times, ts, Candidate(times, ts), NearestForecastIndex(times, ts));
    }
  }

  /**
   * The one index the lookup can answer: the first or the last time when
   * `ts` lies outside the times, else the nearer neighbour, the earlier on
   * a tie.
   */
  function Candidate(times: seq<int>, ts: int): (j: nat)
    requires |times| > 0
    ensures j < |times|
  {
    var i := Bisect.BisectLeft(times, ts, 0, |times|);
    if i == 0 then 0
    else if i == |times| then |times| - 1
    else if Bisect.Dist(times[i - 1], ts) <= Bisect.Dist(times[i], ts) then i - 1
    else i
  }

  /** The lookup answers the candidate exactly when it is within 300 s. */
  lemma IndexIsCandidate(times: seq<int>, ts: int)
    requires |times| > 0
    ensures NearestForecastIndex(times, ts) ==
      if Bisect.Dist(times[Candidate(times, ts)], ts) <= 300 then Some(Candidate(times, ts)) else None
  {
    var n := |times|;
    var i := Bisect.BisectLeft(times, ts, 0, n);
    if i == 0 {
      AbsMinutesCompare(times[0] - ts, 0);
      assert Bisect.Dist(times[0] - ts, 0) == Bisect.Dist(times[0], ts);
    } else if i == n {
      AbsMinutesCompare(ts - times[n - 1], 0);
      assert Bisect.Dist(ts - times[n - 1], 0) == Bisect.Dist(times[n - 1], ts);
    } else {
      AbsMinutesCompare(ts - times[i - 1], times[i] - ts);
      AbsMinutesCompare(ts - times[i - 1], 0);
      AbsMinutesCompare(times[i] - ts, 0);
      assert Bisect.Dist(ts - times[i - 1], 0) == Bisect.Dist(times[i - 1], ts);
      assert Bisect.Dist(times[i] - ts, 0) == Bisect.Dist(times[i], ts);
    }
  }

  /** On sorted times the candidate is the earliest nearest. */
  lemma CandidateIsEarliestNearest(times: seq<int>, ts: int)
    requires Bisect.NonDecreasing(times) && |times| > 0
    ensures Bisect.IsEarliestNearest(times, ts, Candidate(times, ts))
  {
    var n := |times|;
    var i := Bisect.BisectLeft(times, ts, 0, n);
    if i == 0 {
      assert ts <= times[0];
      NearestBelowAll(times, ts);
    } else if i == n {
      assert times[n - 1] < ts;
      NearestAboveAll(times, ts);
    } else {
      assert times[i - 1] < ts <= times[i];
      NearestAround(times, ts, i);
    }
  }

  /** At or before the first time, the first time is the earliest nearest. */
  lemma NearestBelowAll(times: seq<int>, ts: int)
    requires Bisect.NonDecreasing(times) && |times| > 0 && ts <= times[0]
    ensures Bisect.IsEarliestNearest(times, ts, 0)
  {
    forall k | 0 <= k < |times| ensures times[0] <= times[k] {
      if k > 0 { assert times[0] <= times[k]; }
    }
  }

  /** After the last time, the last time is the earliest nearest. */
  lemma NearestAboveAll(times: seq<int>, ts: int)
    requires Bisect.NonDecreasing(times) && |times| > 0 && times[|times| - 1] < ts
    ensures Bisect.IsEarliestNearest(times, ts, |times| - 1)
  {
    forall k | 0 <= k < |times| ensures times[k] <= times[|times| - 1] {
      if k < |times| - 1 { assert times[k] <= times[|times| - 1]; }
    }
  }

  /** Between two neighbours, the nearer one is the earliest nearest, the earlier one on a tie. */
  lemma NearestAround(times: seq<int>, ts: int, i: nat)
    requires Bisect.NonDecreasing(times) && 0 < i < |times| && times[i - 1] < ts <= times[i]
    ensures Bisect.Dist(times[i - 1], ts) <= Bisect.Dist(times[i], ts) ==> Bisect.IsEarliestNearest(times, ts, i - 1)
    ensures Bisect.Dist(times[i - 1], ts) > Bisect.Dist(times[i], ts) ==> Bisect.IsEarliestNearest(times, ts, i)
  {
    forall k | 0 <= k < |times|
      ensures k < i ==> times[k] <= times[i - 1]
      ensures i <= k ==> times[i] <= times[k]
    {
      if k < i - 1 { assert times[k] <= times[i - 1]; }
      if i < k { assert times[i] <= times[k]; }
    }
  }

  /** A lookup that answers the earliest nearest time exactly when it is within five minutes meets the specification. */
  lemma WithinTolerance(times: seq<int>, ts: int, j: nat, r: Option<nat>)
    requires Bisect.IsEarliestNearest(times, ts, j)
    requires r == if Bisect.Dist(times[j], ts) <= 300 then Some(j) else None
    ensures r.None? <==> forall k :: 0 <= k < |times| ==> Bisect.Dist(times[k], ts) > 300
    ensures r.Some? ==> Bisect.IsEarliestNearest(times, ts, r.value) && Bisect.Dist(times[r.value], ts) <= 300
  {
  }

  // ---------------------------------------------------------------------
  // The merge loop

  /** The row built for one observed point. */
  function MergedRowOf(p: ActualPoint, points: seq<Point>): MergedRow {
    var ts := Clock.FromEpoch(p.x);
    MergedRow(Clock.Label(ts), p.y * KmhToKnots, FindNearestForecast(points, ts))
  }

  /** One merged row per observed point, in input order. */
  method Merge(actuals: seq<ActualPoint>, points: seq<Point>) returns (merged: seq<MergedRow>)
    ensures |merged| == |actuals|
    ensures forall i :: 0 <= i < |actuals| ==> merged[i] == MergedRowOf(actuals[i], points)
  {
    merged := [];
    var i := 0;
    while i < |actuals|
      invariant 0 <= i <= |actuals|
      invariant |merged| == i
      invariant forall j :: 0 <= j < i ==> merged[j] == MergedRowOf(actuals[j], points)
    {
      var ts := Clock.FromEpoch(actuals[i].x);
      merged := merged + [MergedRow(Clock.Label(ts), actuals[i].y * KmhToKnots, FindNearestForecast(points, ts))];
      i := i + 1;
    }
  }

  /** The whole computation between reading the two files and writing the analysis. */
  method BuildAnalysis(nowWall: int, days: seq<seq<ForecastEntry>>, actuals: seq<ActualPoint>)
    returns (merged: seq<MergedRow>)
    ensures |merged| == |actuals|
    ensures forall i :: 0 <= i < |actuals| ==>
      merged[i] == MergedRowOf(actuals[i], ForecastPoints(days, WindowStart(nowWall)))
  {
    var start := WindowStart(nowWall);
    var raw := CollectEntries(days, start);
    raw := SortByTime(raw);
    var points := DensifyTenMinutes(raw);
    merged := Merge(actuals, points);
  }

  /**
   * Each merged row carries the observed speed in knots and a forecast
   * exactly when a forecast point lies within five minutes of the
   * observation; that forecast is the speed at the nearest such point,
   * the earlier of two equally near ones.
   */
  lemma MergedRowSpec(p: ActualPoint, days: seq<seq<ForecastEntry>>, start: int)
    ensures MergedRowOf(p, ForecastPoints(days, start)).actual == p.y * KmhToKnots
    ensures MergedRowOf(p, ForecastPoints(days, start)).predicted.None? <==>
      forall q :: 0 <= q < |ForecastPoints(days, start)| ==>
        Bisect.Dist(ForecastPoints(days, start)[q].ts, Clock.FromEpoch(p.x)) > 300
    ensures MergedRowOf(p, ForecastPoints(days, start)).predicted.Some? ==>
      exists j :: Bisect.IsEarliestNearest(Times(ForecastPoints(days, start)), Clock.FromEpoch(p.x), j) &&
        MergedRowOf(p, ForecastPoints(days, start)).predicted.value == ForecastPoints(days, start)[j].knots
  {
    var points := ForecastPoints(days, start);
    var ts := Clock.FromEpoch(p.x);
    ForecastPointsOrdered(days, start);
    NearestForecastSpec(Times(points), ts);
    var r := NearestForecastIndex(Times(points), ts);
    if r.Some? {
      assert Bisect.IsEarliestNearest(Times(points), ts, r.value);
    }
  }
}
