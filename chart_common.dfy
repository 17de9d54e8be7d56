/**
 * Logic the four chart components share: the tooltip's nearest-point
 * lookup, `Math.round`, where the tooltip panel is placed, the
 * auto-scroll offset, and what a pointer-down lands on.
 *
 * Chart times are integer milliseconds (a JavaScript `Date`'s time value
 * is always integral); pixel quantities are `real`.
 */
module ChartCommon {

  import opened Wrappers
  import Bisect

  // ---------------------------------------------------------------------
  // getNearestData

  /** The times of a series of chart points, in order (`chartData.map(d => d.time)`). */
  function Times<P>(pts: seq<P>, time: P -> int): (r: seq<int>)
    ensures |r| == |pts|
    ensures forall i :: 0 <= i < |pts| ==> r[i] == time(pts[i])
  {
    seq(|pts|, i requires 0 <= i < |pts| => time(pts[i]))
  }

  /**
   * `getNearestData`: `d3.bisector(d => d.time).left(data, x0, 1)` gives
   * `idx`; with `d0 = data[idx - 1]` and `d1 = data[idx]`, a missing `d0`
   * answers `d1`, a missing `d1` answers `d0`, and otherwise `d1` wins only
   * when it is strictly nearer. The answer is an index, `None` standing
   * for `undefined`.
   */
  function NearestIndex(times: seq<int>, x0: int): (r: Option<nat>)
    ensures r.Some? ==> r.value < |times|
  {
    var idx := Bisect.BisectLeft(times, x0, 1, |times|);
    // A missing `d0` means `idx > |times|`, so `d1` is missing as well.
    if idx - 1 >= |times| then None
    else if idx >= |times| then Some(idx - 1)
    else if x0 - times[idx - 1] > times[idx] - x0 then Some(idx)
    else Some(idx - 1)
  }

  /**
   * On sorted times the lookup answers exactly when there is a point; the
   * point is at the time nearest `x0`, the earlier of two equally near
   * times; a series of one point answers that point.
   */
  lemma NearestIndexSpec(times: seq<int>, x0: int)
    requires Bisect.NonDecreasing(times)
    ensures NearestIndex(times, x0).None? <==> |times| == 0
    ensures |times| == 1 ==> NearestIndex(times, x0) == Some(0)
    ensures NearestIndex(times, x0).Some? ==> Bisect.IsEarliestNearest(times, x0, NearestIndex(times, x0).value)
  {
    var n := |times|;
    if n > 0 {
      var idx := Bisect.BisectLeft(times, x0, 1, n);
      assert 1 <= idx <= n;
      var j := NearestIndex(times, x0).value;
      forall k | 0 <= k < n
        ensures 1 <= k < idx ==> times[k] <= times[idx - 1] < x0
        ensures idx <= k ==> x0 <= times[idx] <= times[k]
        ensures times[0] <= times[k]
      {
        if k < idx - 1 { assert times[k] <= times[idx - 1]; }
        if idx < k { assert times[idx] <= times[k]; }
        if 0 < k { assert times[0] <= times[k]; }
      }
      if idx < n {
        assert x0 <= times[idx];
      }
      if idx > 1 {
        assert times[idx - 1] < x0;
      }
      forall k | 0 <= k < n
        ensures Bisect.Dist(times[j], x0) <= Bisect.Dist(times[k], x0)
        ensures Bisect.Dist(times[k], x0) == Bisect.Dist(times[j], x0) ==> times[j] <= times[k]
      {
        if k < idx - 1 { assert times[k] <= times[idx - 1]; }
      }
    }
  }

  // ---------------------------------------------------------------------
  // Math.round

  /** `Math.round`: the nearest integer, halves rounded up. */
  function Round(x: real): (r: int)
    ensures r as real - 0.5 <= x < r as real + 0.5
  {
    (x + 0.5).Floor
  }

  /** Rounding a difference is within one of the difference of the rounded values. */
  lemma RoundDifference(a: real, p: real)
    ensures -1 <= Round(a - p) - (Round(a) - Round(p)) <= 1
  {
  }

  /** Rounding keeps order: a larger value never rounds lower. */
  lemma RoundMonotone(x: real, y: real)
    requires x <= y
    ensures Round(x) <= Round(y)
  {
  }

  // ---------------------------------------------------------------------
  // Tooltip placement and scrolling

  /**
   * A fixed panel's horizontal style: `left` (px from the viewport's left
   * edge) or `right` (px from its right edge).
   */
  datatype Anchor = Left(left: real) | Right(right: real)

  /** A tooltip panel's `top` and its horizontal anchor. */
  datatype Placement = Placement(top: real, anchor: Anchor)

  /**
   * The panel of the wind and error charts: 100 px above the pointer and
   * 20 px to its side; on mobile it opens to the right in the left half of
   * the viewport and to the left otherwise, on desktop always to the right.
   */
  function MobileFlipPlacement(isMobile: bool, x: real, y: real, viewportWidth: real): Placement {
    Placement(y - 100.0,
      if isMobile then
        if x < viewportWidth / 2.0 then Left(x + 20.0) else Right(viewportWidth - x + 20.0)
      else Left(x + 20.0))
  }

  /**
   * The panel's near edge is 20 px from the pointer, on its right when
   * left-anchored and on its left when right-anchored; it is
   * right-anchored only on mobile, and then exactly in the right half.
   */
  lemma MobileFlipPlacementSpec(isMobile: bool, x: real, y: real, viewportWidth: real)
    ensures var p := MobileFlipPlacement(isMobile, x, y, viewportWidth);
      && p.top == y - 100.0
      && (p.anchor.Left? ==> p.anchor.left == x + 20.0)
      && (p.anchor.Right? ==> viewportWidth - p.anchor.right == x - 20.0)
      && (p.anchor.Right? <==> isMobile && x >= viewportWidth / 2.0)
  {
  }

  /** `Math.max(0, full - visible)`: how far to scroll to show the right end. */
  function ScrollOffset(full: real, visible: real): (s: real)
    ensures s >= 0.0 && s >= full - visible
    ensures s == 0.0 || s == full - visible
    ensures full <= visible <==> s == 0.0
  {
    if 0.0 >= full - visible then 0.0 else full - visible
  }

  // ---------------------------------------------------------------------
  // Pointer-down targets

  /** An element under the pointer: tag name, classes, parent. */
  datatype Element = Element(tagName: string, classes: set<string>, parent: Option<Element>)

  /** `el.closest(selector)` for a list of class selectors: `el` or an ancestor has one of `names`. */
  predicate Closest(el: Element, names: set<string>)
    decreases el
  {
    (exists c :: c in el.classes && c in names) ||
    (el.parent.Some? && Closest(el.parent.value, names))
  }

  /**
   * Where a pointer-down lands, seen from a chart card: outside the card,
   * in the card but in neither SVG (header, date pickers, legend), in the
   * y-axis SVG, or on an element of the plotting SVG.
   */
  datatype Target = OutsideCard | CardChrome | YAxis | Plot(el: Element)

  /** The capturing document listener: hide when the target is outside the card. */
  predicate DocumentListenerHides(t: Target) {
    t.OutsideCard?
  }

  /** The capturing card listener (it only hears targets inside the card): hide unless in one of the SVGs. */
  predicate CardListenerHides(t: Target) {
    !t.OutsideCard? && !(t.Plot? || t.YAxis?)
  }

  /** The plotting SVG's listener (it only hears its own elements): hide unless on a mark. */
  predicate SvgListenerHides(t: Target, marks: set<string>) {
    t.Plot? && !Closest(t.el, marks)
  }

  /** Some listener of a card with all three listeners hides the tooltip. */
  predicate CardHides(t: Target, marks: set<string>) {
    DocumentListenerHides(t) || CardListenerHides(t) || SvgListenerHides(t, marks)
  }

  /**
   * With all three listeners, a pointer-down keeps the tooltip exactly
   * when it lands in the y-axis SVG or on (a descendant of) a mark.
   */
  lemma CardHidesSpec(t: Target, marks: set<string>)
    ensures !CardHides(t, marks) <==> t.YAxis? || (t.Plot? && Closest(t.el, marks))
  {
  }
}
