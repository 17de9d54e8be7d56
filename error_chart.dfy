/**
 * The forecast-error chart: observed and forecast speeds over a span of
 * days on a horizontally scrolling time axis, with a tooltip showing the
 * error at the nearest sample.
 *
 * The ISO `time` strings arrive parsed, as millisecond time values.
 */
module ErrorChart {

  import opened Wrappers
  import Bisect
  import ChartCommon
  import Tooltip

  /** `scheduleHide`'s delay here. */
  const HideDelayMs: nat := 1000
  /** The classes of the two plotted lines. */
  const LineMarks: set<string> := {"line-actual", "line-forecast"}

  /** A sample: time, observed and forecast speed in knots. */
  datatype ErrorPoint = ErrorPoint(time: int, actual: real, predicted: real)

  /** A sample's time. */
  function PointTime(p: ErrorPoint): int {
    p.time
  }

  // ---------------------------------------------------------------------
  // Extent and width

  /** The earliest time (`d3.extent`'s first half). */
  function MinTime(pts: seq<ErrorPoint>): (m: int)
    requires |pts| > 0
    ensures exists i :: 0 <= i < |pts| && pts[i].time == m
    ensures forall i :: 0 <= i < |pts| ==> m <= pts[i].time
  {
    if |pts| == 1 then pts[0].time
    else
      var rest := MinTime(pts[1..]);
      assert forall i :: 1 <= i < |pts| ==> pts[i] == pts[1..][i - 1];
      if pts[0].time <= rest then pts[0].time else rest
  }

  /** The latest time (`d3.extent`'s second half). */
  function MaxTime(pts: seq<ErrorPoint>): (m: int)
    requires |pts| > 0
    ensures exists i :: 0 <= i < |pts| && pts[i].time == m
    ensures forall i :: 0 <= i < |pts| ==> pts[i].time <= m
  {
    if |pts| == 1 then pts[0].time
    else
      var rest := MaxTime(pts[1..]);
      assert forall i :: 1 <= i < |pts| ==> pts[i] == pts[1..][i - 1];
      if pts[0].time >= rest then pts[0].time else rest
  }

  /** The plot's inner width: the container less the 50 px and 20 px margins. */
  function InnerWidth(containerWidth: real): real {
    containerWidth - 50.0 - 20.0
  }

  /** The time span one screen width shows: 5 hours on mobile, 12 on desktop. */
  function VisibleSpanMs(isMobile: bool): nat {
    (if isMobile then 5 else 12) * 3600000
  }

  /** `innerWidth * (dataSpanMs / visibleSpanMs)`. */
  function Stretched(innerWidth: real, spanMs: int, isMobile: bool): real {
    innerWidth * (spanMs as real / VisibleSpanMs(isMobile) as real)
  }

  /** 1 on mobile, 0.98 on desktop. */
  function Factor(isMobile: bool): real {
    if isMobile then 1.0 else 0.98
  }

  /**
   * `max(innerWidth, innerWidth * (dataSpanMs / visibleSpanMs))`, scaled
   * by 0.98 on desktop.
   */
  function ChartWidth(innerWidth: real, spanMs: int, isMobile: bool): real {
    var stretched := Stretched(innerWidth, spanMs, isMobile);
    (if innerWidth >= stretched then innerWidth else stretched) * Factor(isMobile)
  }

  /**
   * The plot is never narrower than the inner width on mobile, nor than
   * 0.98 of it on desktop; once the data spans more than one screen, the
   * width is the inner width scaled by the data span over the visible
   * span (5 or 12 hours), less 2 % on desktop.
   */
  lemma ChartWidthSpec(innerWidth: real, spanMs: int, isMobile: bool)
    ensures isMobile ==> ChartWidth(innerWidth, spanMs, isMobile) >= innerWidth
    ensures !isMobile ==> ChartWidth(innerWidth, spanMs, isMobile) >= 0.98 * innerWidth
    ensures innerWidth >= 0.0 && spanMs >= VisibleSpanMs(isMobile) ==>
      ChartWidth(innerWidth, spanMs, isMobile) * VisibleSpanMs(isMobile) as real ==
        innerWidth * spanMs as real * Factor(isMobile)
  {
    var stretched := Stretched(innerWidth, spanMs, isMobile);
    var wider := if innerWidth >= stretched then innerWidth else stretched;
    var factor := Factor(isMobile);
    assert ChartWidth(innerWidth, spanMs, isMobile) == wider * factor;
    assert (wider - innerWidth) * factor >= 0.0;
    if innerWidth >= 0.0 && spanMs >= VisibleSpanMs(isMobile) {
      StretchedSpec(innerWidth, spanMs, isMobile);
      assert wider == stretched;
    }
  }

  /** Past one screen of data the stretched width is at least the inner width, and scales with the span. */
  lemma StretchedSpec(innerWidth: real, spanMs: int, isMobile: bool)
    requires innerWidth >= 0.0 && spanMs >= VisibleSpanMs(isMobile)
    ensures Stretched(innerWidth, spanMs, isMobile) >= innerWidth
    ensures Stretched(innerWidth, spanMs, isMobile) * VisibleSpanMs(isMobile) as real == innerWidth * spanMs as real
  {
    var v := VisibleSpanMs(isMobile) as real;
    var q := spanMs as real / v;
    assert q * v == spanMs as real;
    assert q >= 1.0;
    assert innerWidth * q >= innerWidth * 1.0;
    assert innerWidth * q * v == innerWidth * (q * v);
  }

  /** What a render does: clear both SVGs only, or draw over a time domain at a width. */
  datatype Plan = Cleared | Drawn(dataStart: int, dataEnd: int, chartWidth: real)

  function RenderPlan(pts: seq<ErrorPoint>, containerWidth: real, isMobile: bool): Plan {
    if |pts| == 0 then Cleared
    else
      var start, end := MinTime(pts), MaxTime(pts);
      Drawn(start, end, ChartWidth(InnerWidth(containerWidth), end - start, isMobile))
  }

  /**
   * No data draws nothing beyond clearing; otherwise the x domain is
   * exactly the data's earliest to latest time.
   */
  lemma RenderPlanSpec(pts: seq<ErrorPoint>, containerWidth: real, isMobile: bool)
    ensures RenderPlan(pts, containerWidth, isMobile).Cleared? <==> |pts| == 0
    ensures RenderPlan(pts, containerWidth, isMobile).Drawn? ==>
      var plan := RenderPlan(pts, containerWidth, isMobile);
      && plan.dataStart <= plan.dataEnd
      && (forall i :: 0 <= i < |pts| ==> plan.dataStart <= pts[i].time <= plan.dataEnd)
      && (exists i :: 0 <= i < |pts| && pts[i].time == plan.dataStart)
      && (exists i :: 0 <= i < |pts| && pts[i].time == plan.dataEnd)
  {
    if |pts| > 0 {
      assert MinTime(pts) <= pts[0].time <= MaxTime(pts);
    }
  }

  // ---------------------------------------------------------------------
  // The tooltip

  /** The rounded tooltip numbers (the formatted time is left out). */
  datatype ErrorTip = ErrorTip(actual: int, predicted: int, error: int)

  function TipFor(p: ErrorPoint): ErrorTip {
    ErrorTip(ChartCommon.Round(p.actual), ChartCommon.Round(p.predicted), ChartCommon.Round(p.actual - p.predicted))
  }

  /**
   * The error is the rounded `actual - predicted`: within one of the
   * difference of the two rounded speeds, positive only for an
   * under-forecast and negative only for an over-forecast.
   */
  lemma TipForSpec(p: ErrorPoint)
    ensures -1 <= TipFor(p).error - (TipFor(p).actual - TipFor(p).predicted) <= 1
    ensures TipFor(p).error > 0 ==> p.actual > p.predicted
    ensures TipFor(p).error < 0 ==> p.actual < p.predicted
    ensures TipFor(p).error == 0 <==> -0.5 <= p.actual - p.predicted < 0.5
  {
    ChartCommon.RoundDifference(p.actual, p.predicted);
  }

  function NearestPoint(pts: seq<ErrorPoint>, x0: int): Option<ErrorPoint> {
    match ChartCommon.NearestIndex(ChartCommon.Times(pts, PointTime), x0)
    case Some(j) => Some(pts[j])
    case None => None
  }

  /**
   * On samples in time order, a pointer anywhere finds a sample exactly
   * when there is one, and it is the sample nearest the pointer's time,
   * the earlier of two equally near. The chart maps `data` without
   * sorting it, so this holds for rows that arrive in time order.
   */
  lemma NearestPointSpec(pts: seq<ErrorPoint>, x0: int)
    requires Bisect.NonDecreasing(ChartCommon.Times(pts, PointTime))
    ensures NearestPoint(pts, x0).None? <==> |pts| == 0
    ensures NearestPoint(pts, x0).Some? ==>
      exists j :: Bisect.IsEarliestNearest(ChartCommon.Times(pts, PointTime), x0, j) && NearestPoint(pts, x0).value == pts[j]
  {
    ChartCommon.NearestIndexSpec(ChartCommon.Times(pts, PointTime), x0);
  }

  /** `showTooltip`: nothing without a nearest sample, else show its numbers and schedule hiding after 1 s. */
  method ShowTooltip(c: Tooltip.TooltipController<ErrorTip>, pts: seq<ErrorPoint>, x0: int, clientX: real, clientY: real)
    requires c.Valid()
    modifies c
    ensures c.Valid()
    ensures NearestPoint(pts, x0).None? ==>
      c.visible == old(c.visible) && c.payload == old(c.payload) && c.hideTimer == old(c.hideTimer) && c.armed == old(c.armed) &&
      c.x == old(c.x) && c.y == old(c.y) && c.nextHandle == old(c.nextHandle)
    ensures NearestPoint(pts, x0).Some? ==>
      c.visible && c.x == clientX && c.y == clientY &&
      c.payload == Some(TipFor(NearestPoint(pts, x0).value)) &&
      c.hideTimer.Some? && c.armed == map[c.hideTimer.value := HideDelayMs]
  {
    var nearest := NearestPoint(pts, x0);
    if nearest.Some? {
      var _ := c.Show(clientX, clientY, TipFor(nearest.value), HideDelayMs);
    }
  }

  /** A pointer-down keeps the tooltip only in the y-axis SVG or on one of the two lines. */
  lemma ErrorHidesSpec(t: ChartCommon.Target)
    ensures !ChartCommon.CardHides(t, LineMarks) <==>
      t.YAxis? || (t.Plot? && ChartCommon.Closest(t.el, LineMarks))
  {
    ChartCommon.CardHidesSpec(t, LineMarks);
  }
}
