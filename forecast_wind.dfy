/**
 * The 12-hour forecast endpoint.
 *
 * Today's forecast entries from the next whole hour up to twelve hours
 * later (both ends included) are converted to knots, sorted by time and
 * densified onto a 10-minute grid; each row carries the wind direction
 * of the entry that starts its stretch.
 */
module ForecastWind {

  import opened Wrappers
  import Clock
  import StableSort
  import opened Densify

  /** km/h to knots. */
  const KmhToKnots: real := 0.539957

  /** How far ahead the endpoint looks, in seconds. */
  const Horizon: int := 12 * Clock.HourSeconds

  /** The current Brisbane wall time: whole seconds and the microseconds within the second. */
  datatype Now = Now(wall: int, micro: int)

  /** A wind direction as the feed gives it, either part possibly missing (`e.get(...)`). */
  datatype Heading = Heading(degrees: Option<real>, text: Option<string>)

  /** One entry of a forecast day. */
  datatype ForecastEntry = ForecastEntry(dateTime: Clock.IsoStamp, speed: real, direction: Option<real>, directionText: Option<string>)

  /** One row of the response: "HH:MM", knots and the direction fields. */
  datatype FilledRow = FilledRow(x: Clock.ClockLabel, knots: real, directionDegrees: Option<real>, directionText: Option<string>)

  /** A forecast point before densification. */
  type Point = Sample<Heading>

  // ---------------------------------------------------------------------
  // The window

  /**
   * `now` with minutes, seconds and microseconds cleared, plus one hour
   * when its minute or its second is not zero.
   */
  function StartHour(now: Now): (start: int)
    ensures start % Clock.HourSeconds == 0
    ensures now.wall <= start < now.wall + Clock.HourSeconds
    ensures start == now.wall <==> now.wall % Clock.HourSeconds == 0
  {
    var truncated := now.wall - now.wall % Clock.HourSeconds;
    var minute := now.wall % Clock.HourSeconds / Clock.MinuteSeconds;
    var second := now.wall % Clock.MinuteSeconds;
    PastTheHour(now.wall);
    truncated + (if minute > 0 || second > 0 then Clock.HourSeconds else 0)
  }

  /** The minute or the second of `w` is non-zero exactly when `w` is not on the hour. */
  lemma PastTheHour(w: int)
    ensures (w % Clock.HourSeconds / Clock.MinuteSeconds > 0 || w % Clock.MinuteSeconds > 0) <==> w % Clock.HourSeconds != 0
  {
    SecondOfHour(w);
  }

  /** The second of the minute is the second of the hour's remainder modulo a minute. */
  lemma SecondOfHour(w: int)
    ensures w % 60 == w % 3600 % 60
  {
    var q, r := w / 3600, w % 3600;
    var k := 60 * q + r / 60;
    assert w == 60 * k + r % 60 by {
      assert w == 3600 * q + r;
      assert r == 60 * (r / 60) + r % 60;
    }
  }

  /**
   * Counting microseconds, the start hour lies less than an hour after
   * `now` and at most 999999 microseconds before it: microseconds alone
   * never move the start on to the next hour.
   */
  lemma StartHourWithinAnHour(now: Now)
    requires 0 <= now.micro < 1000000
    ensures var gap := StartHour(now) * 1000000 - (now.wall * 1000000 + now.micro);
      -1000000 < gap < Clock.HourSeconds * 1000000
    ensures now.wall % Clock.HourSeconds == 0 && now.micro > 0 ==> StartHour(now) * 1000000 < now.wall * 1000000 + now.micro
  {
  }

  /** `cutoff`: twelve hours after the start hour. */
  function Cutoff(start: int): (c: int)
    ensures c - start == 12 * Clock.HourSeconds
  {
    start + Horizon
  }

  /** The closed window `start_hour <= ts <= cutoff`. */
  predicate InWindow(ts: int, start: int) {
    start <= ts <= Cutoff(start)
  }

  // ---------------------------------------------------------------------
  // Collection

  /** The point an entry contributes. */
  function Converted(e: ForecastEntry): Point {
    Sample(Clock.ToBrisbane(e.dateTime), e.speed * KmhToKnots, Heading(e.direction, e.directionText))
  }

  function CollectedDay(entries: seq<ForecastEntry>, start: int): seq<Point> {
    if |entries| == 0 then []
    else
      var e := entries[|entries| - 1];
      CollectedDay(entries[..|entries| - 1], start) + (if InWindow(Clock.ToBrisbane(e.dateTime), start) then [Converted(e)] else [])
  }

  function Collected(days: seq<seq<ForecastEntry>>, start: int): seq<Point> {
    if |days| == 0 then []
    else Collected(days[..|days| - 1], start) + CollectedDay(days[|days| - 1], start)
  }

  /** The nested loop over days and entries, appending what lies in the window. */
  method CollectPoints(days: seq<seq<ForecastEntry>>, start: int) returns (points: seq<Point>)
    ensures points == Collected(days, start)
  {
    points := [];
    var d := 0;
    while d < |days|
      invariant 0 <= d <= |days|
      invariant points == Collected(days[..d], start)
    {
      var entries := days[d];
      ghost var before := points;
      var k := 0;
      while k < |entries|
        invariant 0 <= k <= |entries|
        invariant points == before + CollectedDay(entries[..k], start)
      {
        var e := entries[k];
        var ts := Clock.ToBrisbane(e.dateTime);
        if start <= ts <= start + Horizon {
          points := points + [Sample(ts, e.speed * KmhToKnots, Heading(e.direction, e.directionText))];
        }
        assert entries[..k + 1][..k] == entries[..k];
        k := k + 1;
      }
      assert entries[..|entries|] == entries;
      assert days[..d + 1][..d] == days[..d];
      d := d + 1;
    }
    assert days[..|days|] == days;
  }

  lemma {:induction false} CollectedDayIff(entries: seq<ForecastEntry>, start: int, p: Point)
    ensures p in CollectedDay(entries, start) <==>
      exists k :: 0 <= k < |entries| && InWindow(Clock.ToBrisbane(entries[k].dateTime), start) && p == Converted(entries[k])
    decreases |entries|
  {
    if |entries| > 0 {
      var init := entries[..|entries| - 1];
      CollectedDayIff(init, start, p);
      if exists k :: 0 <= k < |init| && InWindow(Clock.ToBrisbane(init[k].dateTime), start) && p == Converted(init[k]) {
        var k :| 0 <= k < |init| && InWindow(Clock.ToBrisbane(init[k].dateTime), start) && p == Converted(init[k]);
        assert entries[k] == init[k];
      }
      if exists k :: 0 <= k < |entries| && InWindow(Clock.ToBrisbane(entries[k].dateTime), start) && p == Converted(entries[k]) {
        var k :| 0 <= k < |entries| && InWindow(Clock.ToBrisbane(entries[k].dateTime), start) && p == Converted(entries[k]);
        if k < |init| {
          assert init[k] == entries[k];
        }
      }
    }
  }

  /**
   * The collection keeps exactly the entries with
   * `start_hour <= ts <= cutoff`, converted to knots, with their direction
   * fields.
   */
  lemma {:induction false} CollectedIff(days: seq<seq<ForecastEntry>>, start: int, p: Point)
    ensures p in Collected(days, start) <==>
      exists d, k :: 0 <= d < |days| && 0 <= k < |days[d]| &&
        InWindow(Clock.ToBrisbane(days[d][k].dateTime), start) && p == Converted(days[d][k])
    decreases |days|
  {
    if |days| > 0 {
      var init, last := days[..|days| - 1], days[|days| - 1];
      CollectedIff(init, start, p);
      CollectedDayIff(last, start, p);
      if p in CollectedDay(last, start) {
        var k :| 0 <= k < |last| && InWindow(Clock.ToBrisbane(last[k].dateTime), start) && p == Converted(last[k]);
        assert days[|days| - 1][k] == last[k];
      }
      if p in Collected(init, start) {
        var d, k :| 0 <= d < |init| && 0 <= k < |init[d]| &&
          InWindow(Clock.ToBrisbane(init[d][k].dateTime), start) && p == Converted(init[d][k]);
        assert days[d] == init[d];
      }
      if exists d, k :: 0 <= d < |days| && 0 <= k < |days[d]| &&
          InWindow(Clock.ToBrisbane(days[d][k].dateTime), start) && p == Converted(days[d][k]) {
        var d, k :| 0 <= d < |days| && 0 <= k < |days[d]| &&
          InWindow(Clock.ToBrisbane(days[d][k].dateTime), start) && p == Converted(days[d][k]);
        if d < |init| {
          assert init[d] == days[d];
        } else {
          assert last == days[d];
        }
      }
    }
  }

  // ---------------------------------------------------------------------
  // The response rows

  /** The response row for a densified point: its label, speed and direction. */
  function RowOf(s: Point): FilledRow {
    FilledRow(Clock.Label(s.ts), s.knots, s.carry.degrees, s.carry.text)
  }

  function Rows(dense: seq<Point>): (rows: seq<FilledRow>)
    ensures |rows| == |dense|
    ensures forall i :: 0 <= i < |dense| ==> rows[i] == RowOf(dense[i])
  {
    seq(|dense|, i requires 0 <= i < |dense| => RowOf(dense[i]))
  }

  /** The sorted points of the window. */
  function SortedPoints(days: seq<seq<ForecastEntry>>, start: int): seq<Point> {
    StableSort.Sorted(Collected(days, start), ByTime)
  }

  /** The handler's computation from `now` and the parsed feed to `filled`. */
  method ForecastNext12Hours(now: Now, days: seq<seq<ForecastEntry>>) returns (filled: seq<FilledRow>)
    ensures filled == Rows(Densified(SortedPoints(days, StartHour(now))))
  {
    var start := StartHour(now);
    var points := CollectPoints(days, start);
    points := SortByTime(points);
    var dense := DensifyTenMinutes(points);
    filled := seq(|dense|, i requires 0 <= i < |dense| => RowOf(dense[i]));
  }

  /**
   * `points` is sorted by time and holds only entries of the window; the
   * sort neither loses nor duplicates a point.
   */
  lemma SortedPointsInWindow(days: seq<seq<ForecastEntry>>, start: int)
    ensures TimesNonDecreasing(SortedPoints(days, start))
    ensures multiset(SortedPoints(days, start)) == multiset(Collected(days, start))
    ensures forall j :: 0 <= j < |SortedPoints(days, start)| ==> InWindow(SortedPoints(days, start)[j].ts, start)
  {
    var raw := Collected(days, start);
    var sorted := SortedPoints(days, start);
    SortByTimeOrders(raw, Sample(0, 0.0, Heading(None, None)));
    forall j | 0 <= j < |sorted| ensures InWindow(sorted[j].ts, start) {
      var p := sorted[j];
      assert p in multiset(raw);
      CollectedIff(days, start, p);
      var d, k :| 0 <= d < |days| && 0 <= k < |days[d]| &&
        InWindow(Clock.ToBrisbane(days[d][k].dateTime), start) && p == Converted(days[d][k]);
    }
  }

  /**
   * `filled` is empty iff `points` is; its last row is that of the last
   * point; every point has its own row, in order.
   */
  lemma FilledKeepsPoints(points: seq<Point>, j: nat)
    requires j < |points|
    ensures |Rows(Densified(points))| > 0
    ensures Rows(Densified(points))[|Densified(points)| - 1] == RowOf(points[|points| - 1])
    ensures Position(points, j) < |Densified(points)| && Rows(Densified(points))[Position(points, j)] == RowOf(points[j])
    ensures j + 1 < |points| ==> Position(points, j) < Position(points, j + 1)
  {
    DensifiedEnds(points);
    OriginalsKept(points, j);
  }

  lemma FilledEmpty(points: seq<Point>)
    ensures |Rows(Densified(points))| == 0 <==> |points| == 0
  {
    DensifiedEnds(points);
  }

  /**
   * A row between the rows of `points[j]` and `points[j + 1]` lies on a
   * ten-minute step after `points[j]`, strictly before `points[j + 1]`;
   * its speed lies between the two points' speeds and its direction is
   * that of `points[j]`.
   */
  lemma FilledBetween(points: seq<Point>, j: nat, p: nat)
    requires j + 1 < |points| && Position(points, j) < p < Position(points, j + 1)
    ensures p < |Densified(points)|
    ensures var s := Densified(points)[p];
      && s.ts == points[j].ts + Step * (p - Position(points, j))
      && s.ts < points[j + 1].ts
      && Rows(Densified(points))[p] == FilledRow(Clock.Label(s.ts), s.knots, points[j].carry.degrees, points[j].carry.text)
      && Min(points[j].knots, points[j + 1].knots) <= s.knots <= Max(points[j].knots, points[j + 1].knots)
  {
    BetweenOriginals(points, j, p);
    InterpolateBetween(points[j], points[j + 1], points[j].ts + Step * (p - Position(points, j)));
  }

  /**
   * On distinct times, the rows come every ten minutes at most, in
   * increasing time, and each point's row is the only row at its time.
   */
  lemma FilledOrdered(points: seq<Point>)
    requires forall i :: 0 <= i < |points| - 1 ==> points[i].ts < points[i + 1].ts
    ensures Chain(Densified(points), true)
    ensures TimesIncreasing(Densified(points))
  {
    DensifiedChain(points, true);
    ChainOrders(Densified(points), true);
  }
}
