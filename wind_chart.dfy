/**
 * The forecast wind chart: the "HH:MM" rows of the 12-hour forecast laid
 * out on a timeline that keeps running past midnight, drawn as arrows
 * coloured by speed, with a tooltip for the nearest arrow.
 *
 * Times are milliseconds; `today0` is the time value of local midnight
 * today (`today0.setHours(0, 0, 0, 0)`).
 */
module WindChart {

  import opened Wrappers
  import Clock
  import Bisect
  import ChartCommon
  import Tooltip

  /** `scheduleHide`'s delay here. */
  const HideDelayMs: nat := 3000
  /** How many of the latest points are drawn. */
  const RecentCount: nat := 72
  /** Plot height in px, and the arrow base's lowest allowed distance above the bottom. */
  const Height: real := 200.0
  const MinY: real := 18.0
  /** The classes of the marks a pointer-down may land on without hiding the tooltip. */
  const ArrowMarks: set<string> := {"wind-arrow", "wind-gust-arrow"}

  /** A row of the forecast as the chart receives it. */
  datatype WindRow = WindRow(x: Clock.ClockLabel, windKnots: real, directionDegrees: real, directionText: string, gust: Option<real>)

  /** A point on the chart's timeline. */
  datatype ChartPoint = ChartPoint(time: int, windSpeed: real, windGust: real, direction: real)

  // ---------------------------------------------------------------------
  // The day-offset timeline

  /** `hm < prevHM` on the parsed labels: an earlier time of day. */
  predicate EarlierInDay(hm: Clock.ClockLabel, prev: Clock.ClockLabel) {
    Clock.MinuteOfDay(hm) < Clock.MinuteOfDay(prev)
  }

  /** How many times the labels up to row `i` went back in the day: midnights crossed. */
  function DayOffset(data: seq<WindRow>, i: nat): nat
    requires i < |data|
  {
    if i == 0 then 0
    else DayOffset(data, i - 1) + (if EarlierInDay(data[i].x, data[i - 1].x) then 1 else 0)
  }

  /** The chart point of row `i`. */
  function PointAt(data: seq<WindRow>, today0: int, i: nat): ChartPoint
    requires i < |data|
  {
    var hm := data[i].x;
    ChartPoint(today0 + DayOffset(data, i) * Clock.DayMs + hm.hour * Clock.HourMs + hm.minute * Clock.MinuteMs,
      data[i].windKnots, data[i].gust.GetOr(0.0), data[i].directionDegrees)
  }

  /** The `data.map` with its two mutable variables `prevHM` and `dayOffset`. */
  method ToChartData(data: seq<WindRow>, today0: int) returns (chart: seq<ChartPoint>)
    ensures |chart| == |data|
    ensures forall i :: 0 <= i < |data| ==> chart[i] == PointAt(data, today0, i)
  {
    var prevHM: Option<Clock.ClockLabel> := None;
    var dayOffset: nat := 0;
    chart := [];
    var i := 0;
    while i < |data|
      invariant 0 <= i <= |data|
      invariant |chart| == i
      invariant forall j :: 0 <= j < i ==> chart[j] == PointAt(data, today0, j)
      invariant i == 0 ==> prevHM.None? && dayOffset == 0
      invariant i > 0 ==> prevHM == Some(data[i - 1].x) && dayOffset == DayOffset(data, i - 1)
    {
      var hm := data[i].x;
      if prevHM.Some? && EarlierInDay(hm, prevHM.value) {
        dayOffset := dayOffset + 1;
      }
      prevHM := Some(hm);
      var time := today0 + dayOffset * Clock.DayMs + hm.hour * Clock.HourMs + hm.minute * Clock.MinuteMs;
      chart := chart + [ChartPoint(time, data[i].windKnots, data[i].gust.GetOr(0.0), data[i].directionDegrees)];
      i := i + 1;
    }
  }

  /** A chart point's time. */
  function PointTime(p: ChartPoint): int {
    p.time
  }

  /** A time split into whole days since `today0` and milliseconds into the day. */
  lemma TimeOfDay(data: seq<WindRow>, today0: int, i: nat)
    requires i < |data|
    ensures (PointAt(data, today0, i).time - today0) / Clock.DayMs == DayOffset(data, i)
    ensures (PointAt(data, today0, i).time - today0) % Clock.DayMs == Clock.MinuteOfDay(data[i].x) * Clock.MinuteMs
  {
    var hm := data[i].x;
    var inDay := hm.hour * Clock.HourMs + hm.minute * Clock.MinuteMs;
    assert inDay == Clock.MinuteOfDay(hm) * Clock.MinuteMs;
    assert 0 <= inDay < Clock.DayMs;
    assert PointAt(data, today0, i).time - today0 == DayOffset(data, i) * Clock.DayMs + inDay;
  }

  /**
   * Each step of the timeline goes forward or stays: it stays exactly
   * when a row repeats the previous label.
   */
  lemma TimelineStep(data: seq<WindRow>, today0: int, i: nat)
    requires i + 1 < |data|
    ensures PointAt(data, today0, i).time <= PointAt(data, today0, i + 1).time
    ensures PointAt(data, today0, i).time == PointAt(data, today0, i + 1).time <==> data[i].x == data[i + 1].x
  {
    TimeOfDay(data, today0, i);
    TimeOfDay(data, today0, i + 1);
    var m0, m1 := Clock.MinuteOfDay(data[i].x), Clock.MinuteOfDay(data[i + 1].x);
    var t0, t1 := PointAt(data, today0, i).time, PointAt(data, today0, i + 1).time;
    assert t0 == today0 + DayOffset(data, i) * Clock.DayMs + m0 * Clock.MinuteMs;
    assert t1 == today0 + DayOffset(data, i + 1) * Clock.DayMs + m1 * Clock.MinuteMs;
    if m0 == m1 {
      assert data[i].x.hour == m0 / 60 && data[i].x.minute == m0 % 60;
      assert data[i + 1].x.hour == m1 / 60 && data[i + 1].x.minute == m1 % 60;
    }
  }

  /** The whole timeline is non-decreasing, so it may be bisected. */
  lemma {:induction false} TimelineNonDecreasing(data: seq<WindRow>, today0: int, i: nat, j: nat)
    requires i <= j < |data|
    ensures PointAt(data, today0, i).time <= PointAt(data, today0, j).time
    decreases j - i
  {
    if i < j {
      TimelineStep(data, today0, i);
      TimelineNonDecreasing(data, today0, i + 1, j);
    }
  }

  lemma ChartTimesSorted(data: seq<WindRow>, today0: int, chart: seq<ChartPoint>)
    requires |chart| == |data| && forall i :: 0 <= i < |data| ==> chart[i] == PointAt(data, today0, i)
    ensures Bisect.NonDecreasing(ChartCommon.Times(chart, PointTime))
  {
    forall i, j | 0 <= i < j < |chart| ensures chart[i].time <= chart[j].time {
      TimelineNonDecreasing(data, today0, i, j);
    }
  }

  // ---------------------------------------------------------------------
  // What is drawn

  /** `chartData.slice(-72)`: the last 72 points, or all of them when there are fewer. */
  function Recent(chart: seq<ChartPoint>): (r: seq<ChartPoint>)
    ensures |r| == if |chart| < RecentCount then |chart| else RecentCount
    ensures chart == chart[..|chart| - |r|] + r
  {
    if |chart| <= RecentCount then chart else chart[|chart| - RecentCount..]
  }

  /** The plot's width: the inner width, stretched 2.6 times on mobile for horizontal scrolling. */
  function ChartWidth(isMobile: bool, containerWidth: real): (w: real)
    ensures var width := containerWidth - 100.0; isMobile ==> w == 2.6 * width
    ensures !isMobile ==> w == containerWidth - 100.0
  {
    var width := containerWidth - 50.0 - 20.0 - 30.0;
    if isMobile then width * 2.6 else width
  }

  /** The speed band an arrow is filled with. */
  datatype Fill = Red | Yellow | Green

  function ArrowFill(speed: real): Fill {
    if speed <= 10.0 then Red else if speed <= 17.0 then Yellow else Green
  }

  /** Red up to 10 kn, yellow above 10 up to 17 kn, green above 17 kn. */
  lemma ArrowFillBands(speed: real)
    ensures ArrowFill(speed) == Red <==> speed <= 10.0
    ensures ArrowFill(speed) == Yellow <==> 10.0 < speed <= 17.0
    ensures ArrowFill(speed) == Green <==> 17.0 < speed
  {
  }

  function BandRank(f: Fill): nat {
    match f
    case Red => 0
    case Yellow => 1
    case Green => 2
  }

  /** A faster wind never gets a lower band. */
  lemma ArrowFillMonotone(s1: real, s2: real)
    requires s1 <= s2
    ensures BandRank(ArrowFill(s1)) <= BandRank(ArrowFill(s2))
  {
  }

  /** `yScale`: speeds 0..30 kn onto 200..0 px. */
  function YScale(v: real): real {
    Height + v * (0.0 - Height) / 30.0
  }

  /** An arrow's position and rotation: `translate(x, min(yScale(v), height - minY)) rotate(direction + 180)`. */
  datatype Pose = Pose(x: real, y: real, rotation: real)

  function ArrowPose(xPx: real, v: real, direction: real): Pose {
    var yv := YScale(v);
    Pose(xPx, if yv <= Height - MinY then yv else Height - MinY, direction + 180.0)
  }

  /**
   * An arrow's base is never lower than 18 px above the plot's bottom: it
   * sits at the speed's height from 2.7 kn up and is clamped below that;
   * the arrow points half a turn from the direction the wind blows from.
   */
  lemma ArrowPoseSpec(xPx: real, v: real, direction: real)
    ensures ArrowPose(xPx, v, direction).y <= Height - MinY
    ensures ArrowPose(xPx, v, direction).y == YScale(v) <==> v >= 2.7
    ensures v < 2.7 ==> ArrowPose(xPx, v, direction).y == Height - MinY
    ensures ArrowPose(xPx, v, direction).rotation - direction == 180.0
  {
  }

  /** The points drawn with a gust arrow: `recentData.filter(d => d.windGust > 0)`. */
  function GustArrows(pts: seq<ChartPoint>): seq<ChartPoint> {
    if |pts| == 0 then []
    else GustArrows(pts[..|pts| - 1]) + (if pts[|pts| - 1].windGust > 0.0 then [pts[|pts| - 1]] else [])
  }

  /**
   * A point gets a gust arrow exactly when its gust is positive; a row
   * without a gust (`?? 0`) never gets one.
   */
  lemma {:induction false} GustArrowsIff(pts: seq<ChartPoint>, p: ChartPoint)
    ensures p in GustArrows(pts) <==> p in pts && p.windGust > 0.0
    decreases |pts|
  {
    if |pts| > 0 {
      GustArrowsIff(pts[..|pts| - 1], p);
      assert pts == pts[..|pts| - 1] + [pts[|pts| - 1]];
    }
  }

  /** A row without a gust gets gust 0 (`?? 0`), so its point is never among the gust arrows drawn. */
  lemma NoGustNoArrow(data: seq<WindRow>, today0: int, i: nat, drawn: seq<ChartPoint>)
    requires i < |data| && data[i].gust.None?
    ensures PointAt(data, today0, i).windGust == 0.0
    ensures PointAt(data, today0, i) !in GustArrows(drawn)
  {
    GustArrowsIff(drawn, PointAt(data, today0, i));
  }

  /** `recentData.some(d => d.windGust > 0)`. */
  predicate HasGusts(pts: seq<ChartPoint>) {
    exists i :: 0 <= i < |pts| && pts[i].windGust > 0.0
  }

  /** The mobile auto-scroll: to the right end when gusts are drawn, otherwise to the start. */
  function MobileScroll(pts: seq<ChartPoint>, chartWidth: real, width: real): real {
    if HasGusts(pts) then chartWidth - width else 0.0
  }

  /** The chart scrolls exactly when some gust arrow is drawn, and then by the part of the plot beyond one width. */
  lemma MobileScrollSpec(pts: seq<ChartPoint>, containerWidth: real)
    ensures var width := containerWidth - 100.0;
      MobileScroll(pts, ChartWidth(true, containerWidth), width) ==
        (if |GustArrows(pts)| > 0 then 1.6 * width else 0.0)
  {
    if HasGusts(pts) {
      var i :| 0 <= i < |pts| && pts[i].windGust > 0.0;
      GustArrowsIff(pts, pts[i]);
    } else if |GustArrows(pts)| > 0 {
      var g := GustArrows(pts)[0];
      GustArrowsIff(pts, g);
    }
  }

  // ---------------------------------------------------------------------
  // The tooltip

  /** The tooltip payload. */
  datatype WindTip = WindTip(windKnots: int, gust: Option<int>, directionText: string, time: Clock.ClockLabel)

  /** `d3.timeFormat("%H:%M")` of a time on the timeline. */
  function FormatHM(time: int, today0: int): (hm: Clock.ClockLabel)
    ensures Clock.MinuteOfDay(hm) == (time - today0) % Clock.DayMs / Clock.MinuteMs
  {
    var m := (time - today0) % Clock.DayMs / Clock.MinuteMs;
    Clock.HourMinute(m / 60, m % 60)
  }

  /** `data.find(d => d.x === hhmm)`, as an index. */
  function FindLabel(data: seq<WindRow>, hm: Clock.ClockLabel, from: nat): (r: Option<nat>)
    requires from <= |data|
    ensures r.Some? ==> from <= r.value < |data| && data[r.value].x == hm
    ensures r.Some? ==> forall j :: from <= j < r.value ==> data[j].x != hm
    ensures r.None? ==> forall j :: from <= j < |data| ==> data[j].x != hm
    decreases |data| - from
  {
    if from == |data| then None
    else if data[from].x == hm then Some(from)
    else FindLabel(data, hm, from + 1)
  }

  /** The payload shown for the nearest point. */
  function TipFor(data: seq<WindRow>, today0: int, nearest: ChartPoint): WindTip {
    var hhmm := FormatHM(nearest.time, today0);
    var orig := FindLabel(data, hhmm, 0);
    WindTip(ChartCommon.Round(nearest.windSpeed),
      if orig.Some? && data[orig.value].gust.Some? then Some(ChartCommon.Round(data[orig.value].gust.value)) else None,
      if orig.Some? then data[orig.value].directionText else "",
      hhmm)
  }

  /**
   * The payload's time is the point's own label. Gust and direction come
   * from the first row with that label, which is the point's own row
   * when no earlier row repeats it.
   */
  lemma TipForOwnRow(data: seq<WindRow>, today0: int, i: nat)
    requires i < |data|
    requires forall j :: 0 <= j < i ==> data[j].x != data[i].x
    ensures var tip := TipFor(data, today0, PointAt(data, today0, i));
      && tip.time == data[i].x
      && tip.windKnots == ChartCommon.Round(data[i].windKnots)
      && tip.directionText == data[i].directionText
      && (tip.gust.Some? <==> data[i].gust.Some?)
      && (data[i].gust.Some? ==> tip.gust == Some(ChartCommon.Round(data[i].gust.value)))
  {
    TimeOfDay(data, today0, i);
    var hm := FormatHM(PointAt(data, today0, i).time, today0);
    Clock.LabelsEqual(hm, data[i].x);
  }

  /** The nearest point for a pointer at time `x0`, among the drawn points. */
  function NearestPoint(recent: seq<ChartPoint>, x0: int): Option<ChartPoint> {
    match ChartCommon.NearestIndex(ChartCommon.Times(recent, PointTime), x0)
    case Some(j) => Some(recent[j])
    case None => None
  }

  /** `showTooltip`: nothing without a nearest point, else show its payload and schedule hiding after 3 s. */
  method ShowTooltip(c: Tooltip.TooltipController<WindTip>, recent: seq<ChartPoint>, data: seq<WindRow>, today0: int,
                     x0: int, clientX: real, clientY: real)
    requires c.Valid()
    modifies c
    ensures c.Valid()
    ensures NearestPoint(recent, x0).None? ==>
      c.visible == old(c.visible) && c.payload == old(c.payload) && c.hideTimer == old(c.hideTimer) && c.armed == old(c.armed) &&
      c.x == old(c.x) && c.y == old(c.y) && c.nextHandle == old(c.nextHandle)
    ensures NearestPoint(recent, x0).Some? ==>
      c.visible && c.x == clientX && c.y == clientY &&
      c.payload == Some(TipFor(data, today0, NearestPoint(recent, x0).value)) &&
      c.hideTimer.Some? && c.armed == map[c.hideTimer.value := HideDelayMs]
  {
    var nearest := NearestPoint(recent, x0);
    if nearest.Some? {
      var _ := c.Show(clientX, clientY, TipFor(data, today0, nearest.value), HideDelayMs);
    }
  }

  // ---------------------------------------------------------------------
  // Dismissal

  /** The transparent background rectangle's own listener hides on every pointer-down on it. */
  predicate BackgroundHides(t: ChartCommon.Target) {
    t.Plot? && "bg-capture" in t.el.classes
  }

  predicate WindHides(t: ChartCommon.Target) {
    ChartCommon.CardHides(t, ArrowMarks) || BackgroundHides(t)
  }

  /**
   * A pointer-down keeps the tooltip exactly when it lands in the y-axis
   * SVG, or on an arrow (or inside one) that is not the background.
   */
  lemma WindHidesSpec(t: ChartCommon.Target)
    ensures !WindHides(t) <==>
      t.YAxis? || (t.Plot? && ChartCommon.Closest(t.el, ArrowMarks) && "bg-capture" !in t.el.classes)
  {
    ChartCommon.CardHidesSpec(t, ArrowMarks);
  }
}
