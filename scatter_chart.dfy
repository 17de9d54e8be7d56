/**
 * The forecast-against-observation scatter plot: one dot per sample
 * with both speeds finite, on equal x and y domains so that the diagonal
 * is a perfect forecast, coloured by the sign of the forecast's bias.
 */
module ScatterChart {

  import opened Wrappers
  import ChartCommon
  import Tooltip

  /** `scheduleHide`'s delay here. */
  const HideDelayMs: nat := 1000

  /**
   * Whatever sits where a number is expected: a finite number, a value
   * `Number.isFinite` rejects (NaN, an infinity, a string, `undefined`),
   * or `null`.
   */
  datatype Num = Finite(value: real) | NonFinite | Null

  /** A row as received. */
  datatype ScatterRow = ScatterRow(time: string, actual: Num, predicted: Num)

  /** A plotted point: `a` observed, `p` forecast, `err = actual - predicted`. */
  datatype Point = Point(time: string, a: real, p: real, err: real)

  // ---------------------------------------------------------------------
  // Points

  /** `Number.isFinite`: true of finite numbers only, never of `null` (no coercion). */
  predicate IsFinite(n: Num) {
    n.Finite?
  }

  /** The filter's test, as written: both finite and both not `null`. */
  predicate Keep(r: ScatterRow) {
    IsFinite(r.actual) && IsFinite(r.predicted) && r.actual != Null && r.predicted != Null
  }

  function PointOf(r: ScatterRow): Point
    requires Keep(r)
  {
    Point(r.time, r.actual.value, r.predicted.value, r.actual.value - r.predicted.value)
  }

  /** `points`: the filter, then the map. */
  function Points(rows: seq<ScatterRow>): seq<Point> {
    if |rows| == 0 then []
    else
      var r := rows[|rows| - 1];
      Points(rows[..|rows| - 1]) + (if Keep(r) then [PointOf(r)] else [])
  }

  /** `(data || [])`, filtered and mapped: a missing data set has no points. */
  function CleanPoints(data: Option<seq<ScatterRow>>): (pts: seq<Point>)
    ensures data.None? ==> pts == []
    ensures data.Some? ==> pts == Points(data.value)
  {
    Points(data.GetOr([]))
  }

  /** The `null` tests add nothing: a row is kept exactly when both speeds are finite. */
  lemma KeepIff(r: ScatterRow)
    ensures Keep(r) <==> r.actual.Finite? && r.predicted.Finite?
  {
  }

  /** Filtering preserves order: the points of two stretches of rows are those of each, in turn. */
  lemma {:induction false} PointsAppend(rows1: seq<ScatterRow>, rows2: seq<ScatterRow>)
    ensures Points(rows1 + rows2) == Points(rows1) + Points(rows2)
    decreases |rows2|
  {
    if |rows2| == 0 {
      assert rows1 + rows2 == rows1;
    } else {
      var init := rows2[..|rows2| - 1];
      assert (rows1 + rows2)[..|rows1 + rows2| - 1] == rows1 + init;
      PointsAppend(rows1, init);
    }
  }

  /**
   * The points are exactly the rows with both speeds finite, each with
   * its speeds and the error `actual - predicted`.
   */
  lemma {:induction false} PointsIff(rows: seq<ScatterRow>, q: Point)
    ensures q in Points(rows) <==> exists i :: 0 <= i < |rows| && Keep(rows[i]) && q == PointOf(rows[i])
    decreases |rows|
  {
    if |rows| > 0 {
      var init := rows[..|rows| - 1];
      PointsIff(init, q);
      if exists i :: 0 <= i < |init| && Keep(init[i]) && q == PointOf(init[i]) {
        var i :| 0 <= i < |init| && Keep(init[i]) && q == PointOf(init[i]);
        assert rows[i] == init[i];
      }
      if exists i :: 0 <= i < |rows| && Keep(rows[i]) && q == PointOf(rows[i]) {
        var i :| 0 <= i < |rows| && Keep(rows[i]) && q == PointOf(rows[i]);
        if i < |init| {
          assert init[i] == rows[i];
        }
      }
    }
  }

  /** Every point's error is its observed less its forecast speed. */
  lemma {:induction false} PointsErr(rows: seq<ScatterRow>, k: nat)
    requires k < |Points(rows)|
    ensures Points(rows)[k].err == Points(rows)[k].a - Points(rows)[k].p
    decreases |rows|
  {
    var init := rows[..|rows| - 1];
    if k < |Points(init)| {
      PointsErr(init, k);
    }
  }

  // ---------------------------------------------------------------------
  // Size and domain

  /** `Math.max(280, W - 56 - 16)`. */
  function PlotWidth(containerWidth: real): (w: real)
    ensures w >= 280.0 && w >= containerWidth - 72.0
    ensures w == 280.0 || w == containerWidth - 72.0
  {
    var inner := containerWidth - 56.0 - 16.0;
    if 280.0 >= inner then 280.0 else inner
  }

  /** Every plotted speed: `points.flatMap(p => [p.a, p.p])`. */
  function Values(pts: seq<Point>): (vals: seq<real>)
    ensures |vals| == 2 * |pts|
    ensures forall k :: 0 <= k < |pts| ==> vals[2 * k] == pts[k].a && vals[2 * k + 1] == pts[k].p
  {
    if |pts| == 0 then [] else [pts[0].a, pts[0].p] + Values(pts[1..])
  }

  /** `d3.min(vals)`, undefined when there are none. */
  function MinOf(vals: seq<real>): (m: Option<real>)
    ensures m.None? <==> |vals| == 0
    ensures m.Some? ==> (forall i :: 0 <= i < |vals| ==> m.value <= vals[i]) && m.value in vals
  {
    if |vals| == 0 then None
    else
      var rest := MinOf(vals[1..]);
      assert forall i :: 1 <= i < |vals| ==> vals[i] == vals[1..][i - 1];
      if rest.None? || vals[0] <= rest.value then Some(vals[0]) else rest
  }

  /** `d3.max(vals)`, undefined when there are none. */
  function MaxOf(vals: seq<real>): (m: Option<real>)
    ensures m.None? <==> |vals| == 0
    ensures m.Some? ==> (forall i :: 0 <= i < |vals| ==> vals[i] <= m.value) && m.value in vals
  {
    if |vals| == 0 then None
    else
      var rest := MaxOf(vals[1..]);
      assert forall i :: 1 <= i < |vals| ==> vals[i] == vals[1..][i - 1];
      if rest.None? || vals[0] >= rest.value then Some(vals[0]) else rest
  }

  /** `Math.min(0, d3.min(vals) ?? 0)`. */
  function VMin(pts: seq<Point>): real {
    var m := MinOf(Values(pts)).GetOr(0.0);
    if 0.0 <= m then 0.0 else m
  }

  /** `(d3.max(vals) ?? 10) * 1.05`. */
  function VMax(pts: seq<Point>): real {
    MaxOf(Values(pts)).GetOr(10.0) * 1.05
  }

  /** The lower end of the domain is at most 0 and at most every plotted speed. */
  lemma VMinSpec(pts: seq<Point>)
    ensures VMin(pts) <= 0.0
    ensures forall k :: 0 <= k < |pts| ==> VMin(pts) <= pts[k].a && VMin(pts) <= pts[k].p
    ensures VMin(pts) == 0.0 || VMin(pts) in Values(pts)
  {
    forall k | 0 <= k < |pts| ensures VMin(pts) <= pts[k].a && VMin(pts) <= pts[k].p {
      PointValues(pts, k);
    }
  }

  /**
   * The upper end is 5 % above the largest plotted speed; it bounds every
   * plotted speed exactly when that largest speed is not negative.
   */
  lemma VMaxSpec(pts: seq<Point>)
    requires |pts| > 0
    ensures (forall k :: 0 <= k < |pts| ==> pts[k].a <= VMax(pts) && pts[k].p <= VMax(pts)) <==>
      MaxOf(Values(pts)).value >= 0.0
  {
    var m := MaxOf(Values(pts)).value;
    forall k | 0 <= k < |pts| ensures pts[k].a <= m && pts[k].p <= m {
      PointValues(pts, k);
    }
    if m < 0.0 {
      var k := ValuePoint(pts, m);
      assert m * 1.05 < m;
    }
  }

  /** Both speeds of each point are among the values. */
  lemma PointValues(pts: seq<Point>, k: int)
    requires 0 <= k < |pts|
    ensures pts[k].a in Values(pts) && pts[k].p in Values(pts)
  {
    var vals := Values(pts);
    assert vals[2 * k] == pts[k].a && vals[2 * k + 1] == pts[k].p;
  }

  /** Each value is a speed of some point. */
  lemma ValuePoint(pts: seq<Point>, v: real) returns (k: int)
    requires v in Values(pts)
    ensures 0 <= k < |pts| && (v == pts[k].a || v == pts[k].p)
  {
    var vals := Values(pts);
    var i :| 0 <= i < |vals| && vals[i] == v;
    k := i / 2;
    assert i == 2 * k || i == 2 * k + 1;
    assert vals[2 * k] == pts[k].a && vals[2 * k + 1] == pts[k].p;
  }

  /** What a render draws: the sized SVG only, or the plot over `[vMin, vMax]` on both axes. */
  datatype Plan = Sized(width: real) | Plotted(width: real, vMin: real, vMax: real)

  function RenderPlan(pts: seq<Point>, containerWidth: real): Plan {
    var width := PlotWidth(containerWidth);
    if |pts| == 0 then Sized(width) else Plotted(width, VMin(pts), VMax(pts))
  }

  /** Without points nothing is drawn past sizing the SVG, at least 280 px wide either way. */
  lemma RenderPlanSpec(pts: seq<Point>, containerWidth: real)
    ensures RenderPlan(pts, containerWidth).Sized? <==> |pts| == 0
    ensures RenderPlan(pts, containerWidth).width >= 280.0
  {
  }

  // ---------------------------------------------------------------------
  // Colour and tooltip

  datatype DotColour = Over | Under

  /** `color(d.p - d.a)`: over-forecast when the bias is positive. */
  function Colour(q: Point): DotColour {
    if q.p - q.a > 0.0 then Over else Under
  }

  /** The tooltip payload: time, both speeds and `err: d.a - d.p`. */
  datatype ScatterTip = ScatterTip(time: string, actual: real, predicted: real, err: real)

  function TipFor(q: Point): ScatterTip {
    ScatterTip(q.time, q.a, q.p, q.a - q.p)
  }

  /**
   * A dot is coloured over-forecast exactly when its tooltip's error is
   * negative: the colour uses forecast minus observed, the tooltip
   * observed minus forecast; a perfect forecast is coloured under.
   */
  lemma ColourAgainstTip(q: Point)
    ensures Colour(q) == Over <==> TipFor(q).err < 0.0
    ensures q.a == q.p ==> Colour(q) == Under
  {
  }

  /** The panel: 110 px above and 18 px right of the pointer, never flipped. */
  function Placement(x: real, y: real): (r: ChartCommon.Placement)
    ensures r.anchor.Left? && r.anchor.left - x == 18.0 && y - r.top == 110.0
  {
    ChartCommon.Placement(y - 110.0, ChartCommon.Left(x + 18.0))
  }

  /** `mousemove` on a dot: show it at the pointer and schedule hiding after 1 s. */
  method ShowOnMouse(c: Tooltip.TooltipController<ScatterTip>, q: Point, clientX: real, clientY: real)
    requires c.Valid()
    modifies c
    ensures c.Valid() && c.visible && c.payload == Some(TipFor(q)) && c.x == clientX && c.y == clientY
    ensures c.hideTimer.Some? && c.armed == map[c.hideTimer.value := HideDelayMs]
  {
    var _ := c.Show(clientX, clientY, TipFor(q), HideDelayMs);
  }

  /** `touchstart` on a dot: the same at the first touch, or at 0 when there is none. */
  method ShowOnTouch(c: Tooltip.TooltipController<ScatterTip>, q: Point, touches: seq<(real, real)>)
    requires c.Valid()
    modifies c
    ensures c.Valid() && c.visible && c.payload == Some(TipFor(q))
    ensures |touches| > 0 ==> c.x == touches[0].0 && c.y == touches[0].1
    ensures |touches| == 0 ==> c.x == 0.0 && c.y == 0.0
    ensures c.hideTimer.Some? && c.armed == map[c.hideTimer.value := HideDelayMs]
  {
    var tx, ty := if |touches| > 0 then touches[0].0 else 0.0, if |touches| > 0 then touches[0].1 else 0.0;
    var _ := c.Show(tx, ty, TipFor(q), HideDelayMs);
  }

  // ---------------------------------------------------------------------
  // Dismissal

  /** Where a pointer-down lands: outside the card, in the card outside the SVG, or on an element of the SVG. */
  datatype ScatterTarget = OutsideCard | CardChrome | InSvg(el: ChartCommon.Element)

  /** `toLowerCase` on the ASCII letters (tag names are ASCII). */
  function Lower(s: string): (r: string)
    ensures |r| == |s|
    ensures forall i :: 0 <= i < |s| ==> r[i] == (if 'A' <= s[i] <= 'Z' then (s[i] as int + 32) as char else s[i])
  {
    if |s| == 0 then []
    else [if 'A' <= s[0] <= 'Z' then (s[0] as int + 32) as char else s[0]] + Lower(s[1..])
  }

  /**
   * The listeners after a render that drew points: the document listener
   * (outside the card), the SVG's listener (any element but a circle) and
   * the background rectangle's; there is no card listener.
   */
  predicate ScatterHides(t: ScatterTarget) {
    t.OutsideCard? ||
    (t.InSvg? && Lower(t.el.tagName) != "circle") ||
    (t.InSvg? && "bg-capture" in t.el.classes)
  }

  /**
   * A pointer-down keeps the tooltip exactly on a dot, and anywhere in the
   * card outside the SVG (the header and the legend).
   */
  lemma ScatterHidesSpec(t: ScatterTarget)
    ensures !ScatterHides(t) <==>
      t.CardChrome? || (t.InSvg? && Lower(t.el.tagName) == "circle" && "bg-capture" !in t.el.classes)
  {
  }

  /** A character lower-cases to the small letter `lo` exactly when it is `lo` or its capital. */
  lemma LowerLetter(ch: char, lo: char)
    requires 'a' <= lo <= 'z'
    ensures (if 'A' <= ch <= 'Z' then (ch as int + 32) as char else ch) == lo <==> ch == lo || ch as int == lo as int - 32
  {
  }

  /** A string lower-cases to a word of small letters exactly when it spells that word in any mix of cases. */
  lemma LowerMatches(tag: string, word: string)
    requires forall i :: 0 <= i < |word| ==> 'a' <= word[i] <= 'z'
    ensures Lower(tag) == word <==>
      |tag| == |word| && forall i :: 0 <= i < |word| ==> tag[i] == word[i] || tag[i] as int == word[i] as int - 32
  {
    if |tag| == |word| {
      forall i | 0 <= i < |word|
        ensures Lower(tag)[i] == word[i] <==> tag[i] == word[i] || tag[i] as int == word[i] as int - 32
      {
        LowerLetter(tag[i], word[i]);
      }
    }
  }

  /**
   * The tag test ignores case: a tag counts as a dot exactly when it
   * spells `circle` with each letter in either case.
   */
  lemma LowerCircle(tag: string)
    ensures Lower(tag) == "circle" <==>
      |tag| == 6 && forall i :: 0 <= i < 6 ==> tag[i] == "circle"[i] || tag[i] == "CIRCLE"[i]
  {
    var word, caps := "circle", "CIRCLE";
    assert forall i :: 0 <= i < 6 ==> 'a' <= word[i] <= 'z' && caps[i] as int == word[i] as int - 32;
    LowerMatches(tag, word);
  }
}
