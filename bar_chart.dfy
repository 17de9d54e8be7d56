/**
 * The daily-metrics bar chart: one bar per day, its height the day's
 * mean absolute error and its colour the sign of the day's bias, laid
 * out at an exact bar width and gap.
 */
module BarChart {

  import opened Wrappers
  import StableSort
  import ChartCommon
  import Tooltip

  /** `scheduleHide`'s delay here. */
  const HideDelayMs: nat := 1000
  /** The class of a bar. */
  const BarMarks: set<string> := {"bar-rect"}

  /**
   * A day's metrics: its `YYYY-MM-DD` date, MAE and bias (missing, null or
   * NaN values as `None`). The counts and the other error measures the
   * tooltip only prints are left out.
   */
  datatype DailyRow = DailyRow(date: string, mae: Option<real>, bias: Option<real>)

  // ---------------------------------------------------------------------
  // Dates

  predicate IsDigit(c: char) {
    '0' <= c <= '9'
  }

  /** `/^\d{4}-\d{2}-\d{2}$/` matches `s`. */
  predicate IsIsoDate(s: string) {
    && |s| == 10
    && IsDigit(s[0]) && IsDigit(s[1]) && IsDigit(s[2]) && IsDigit(s[3]) && s[4] == '-'
    && IsDigit(s[5]) && IsDigit(s[6]) && s[7] == '-'
    && IsDigit(s[8]) && IsDigit(s[9])
  }

  /** `DD/MM/YYYY`, the shape `formatToAusDate` produces. */
  predicate IsAusDate(s: string) {
    && |s| == 10
    && IsDigit(s[0]) && IsDigit(s[1]) && s[2] == '/'
    && IsDigit(s[3]) && IsDigit(s[4]) && s[5] == '/'
    && IsDigit(s[6]) && IsDigit(s[7]) && IsDigit(s[8]) && IsDigit(s[9])
  }

  /** The first index at or after `from` holding `c`, or `|s|`. */
  function IndexOf(s: string, c: char, from: nat): (i: nat)
    requires from <= |s|
    ensures from <= i <= |s|
    ensures i < |s| ==> s[i] == c
    ensures forall j :: from <= j < i ==> s[j] != c
    decreases |s| - from
  {
    if from == |s| || s[from] == c then from else IndexOf(s, c, from + 1)
  }

  /** `s.split(c)` for a one-character separator. */
  function Split(s: string, c: char): (parts: seq<string>)
    ensures |parts| >= 1
    decreases |s|
  {
    var i := IndexOf(s, c, 0);
    if i == |s| then [s] else [s[..i]] + Split(s[i + 1..], c)
  }

  /** `parts.join(c)`. */
  function Join(parts: seq<string>, c: char): string
    requires |parts| >= 1
  {
    if |parts| == 1 then parts[0] else parts[0] + [c] + Join(parts[1..], c)
  }

  /** Splitting loses nothing: the parts joined again give back the string. */
  lemma {:induction false} SplitRejoins(s: string, c: char)
    ensures Join(Split(s, c), c) == s
    decreases |s|
  {
    var i := IndexOf(s, c, 0);
    if i < |s| {
      var rest := s[i + 1..];
      SplitRejoins(rest, c);
      SplitAt(s, c);
      JoinCons(s[..i], Split(rest, c), c);
      CutAt(s, i);
    }
  }

  /** Where the first separator is, the split is the part before it, then the split of the rest. */
  lemma SplitAt(s: string, c: char)
    requires IndexOf(s, c, 0) < |s|
    ensures Split(s, c) == [s[..IndexOf(s, c, 0)]] + Split(s[IndexOf(s, c, 0) + 1..], c)
  {
  }

  lemma JoinCons(p: string, parts: seq<string>, c: char)
    requires |parts| >= 1
    ensures Join([p] + parts, c) == p + [c] + Join(parts, c)
  {
    assert ([p] + parts)[1..] == parts;
  }

  lemma CutAt(s: string, i: nat)
    requires i < |s|
    ensures s == s[..i] + [s[i]] + s[i + 1..]
  {
  }

  /** No part of a split holds the separator. */
  lemma {:induction false} SplitPartsFree(s: string, c: char)
    ensures forall k :: 0 <= k < |Split(s, c)| ==> c !in Split(s, c)[k]
    decreases |s|
  {
    var i := IndexOf(s, c, 0);
    assert c !in s[..i];
    if i < |s| {
      var rest := s[i + 1..];
      SplitPartsFree(rest, c);
      SplitAt(s, c);
      var tail := Split(rest, c);
      assert Split(s, c) == [s[..i]] + tail;
      forall k | 0 <= k < 1 + |tail| ensures c !in ([s[..i]] + tail)[k] {
        if k > 0 {
          assert ([s[..i]] + tail)[k] == tail[k - 1];
        }
      }
    } else {
      assert s[..i] == s;
    }
  }

  /** A matching date splits into its year, month and day. */
  lemma SplitIsoDate(s: string)
    requires IsIsoDate(s)
    ensures Split(s, '-') == [s[..4], s[5..7], s[8..]]
  {
    var r1 := s[5..];
    var r2 := r1[3..];
    assert IndexOf(s, '-', 0) == 4 by {
      assert IndexOf(s, '-', 4) == 4;
    }
    assert IndexOf(r1, '-', 0) == 2 by {
      assert IndexOf(r1, '-', 2) == 2;
    }
    assert IndexOf(r2, '-', 0) == 2 by {
      assert IndexOf(r2, '-', 2) == 2;
    }
    assert r1[..2] == s[5..7] && r2 == s[8..];
    assert Split(r2, '-') == [r2];
    assert Split(r1, '-') == [r1[..2]] + Split(r2, '-');
    assert Split(s, '-') == [s[..4]] + Split(r1, '-');
  }

  /** Element `k` of a destructured array, or the text `undefined` when there is none. */
  function Part(parts: seq<string>, k: nat): string {
    if k < |parts| then parts[k] else "undefined"
  }

  /** `formatToAusDate`. */
  function FormatToAusDate(s: string): string {
    if |s| == 0 || !IsIsoDate(s) then s
    else
      var parts := Split(s, '-');
      Part(parts, 2) + "/" + Part(parts, 1) + "/" + Part(parts, 0)
  }

  /**
   * A matching date becomes day/month/year, a `DD/MM/YYYY` string from
   * which the date can be read back; any other string, the empty one
   * included, comes back unchanged.
   */
  lemma FormatToAusDateSpec(s: string)
    ensures IsIsoDate(s) ==> FormatToAusDate(s) == s[8..] + "/" + s[5..7] + "/" + s[..4]
    ensures IsIsoDate(s) ==> IsAusDate(FormatToAusDate(s))
    ensures IsIsoDate(s) ==> FromAusDate(FormatToAusDate(s)) == s
    ensures !IsIsoDate(s) ==> FormatToAusDate(s) == s
  {
    if IsIsoDate(s) {
      SplitIsoDate(s);
      var r := FormatToAusDate(s);
      assert r == s[8..] + "/" + s[5..7] + "/" + s[..4];
      assert r[6..] == s[..4] && r[3..5] == s[5..7] && r[..2] == s[8..];
      assert s == s[..4] + "-" + s[5..7] + "-" + s[8..];
    }
  }

  /** The `YYYY-MM-DD` date a `DD/MM/YYYY` string names. */
  function FromAusDate(r: string): string
    requires |r| == 10
  {
    r[6..] + "-" + r[3..5] + "-" + r[..2]
  }

  /** The x-axis tick: `${day}/${month}` of the date split at '-', with no check of its shape. */
  function TickLabel(date: string): string {
    var parts := Split(date, '-');
    Part(parts, 2) + "/" + Part(parts, 1)
  }

  /** A matching date's tick is the first five characters of its `DD/MM/YYYY` form. */
  lemma TickLabelSpec(date: string)
    requires IsIsoDate(date)
    ensures TickLabel(date) == date[8..] + "/" + date[5..7]
    ensures TickLabel(date) == FormatToAusDate(date)[..5]
  {
    SplitIsoDate(date);
    FormatToAusDateSpec(date);
  }

  // ---------------------------------------------------------------------
  // The sorted copy of the rows

  /** `a.localeCompare(b) <= 0`, taken as plain lexicographic order on characters. */
  predicate LexLe(a: string, b: string)
    decreases |a|
  {
    |a| == 0 || (|b| > 0 && (a[0] < b[0] || (a[0] == b[0] && LexLe(a[1..], b[1..]))))
  }

  lemma {:induction false} LexLeTotal(a: string, b: string)
    ensures LexLe(a, b) || LexLe(b, a)
    decreases |a|
  {
    if |a| > 0 && |b| > 0 && a[0] == b[0] {
      LexLeTotal(a[1..], b[1..]);
    }
  }

  lemma {:induction false} LexLeTransitive(a: string, b: string, c: string)
    requires LexLe(a, b) && LexLe(b, c)
    ensures LexLe(a, c)
    decreases |a|
  {
    if |a| > 0 && a[0] == b[0] && b[0] == c[0] {
      LexLeTransitive(a[1..], b[1..], c[1..]);
    }
  }

  /** The comparator of the sort: by date. */
  predicate DateLe(x: DailyRow, y: DailyRow) {
    LexLe(x.date, y.date)
  }

  lemma DateLeIsTotalPreorder()
    ensures StableSort.TotalPreorder(DateLe)
  {
    forall x: DailyRow, y: DailyRow ensures DateLe(x, y) || DateLe(y, x) {
      LexLeTotal(x.date, y.date);
    }
    forall x: DailyRow, y: DailyRow, z: DailyRow | DateLe(x, y) && DateLe(y, z) ensures DateLe(x, z) {
      LexLeTransitive(x.date, y.date, z.date);
    }
  }

  /**
   * `(data || []).slice().sort(byDate)`: a new array holding the rows
   * stably sorted by date; the input array is not touched (the method may
   * not modify it).
   */
  method SortedRows(data: array?<DailyRow>) returns (rows: array<DailyRow>)
    ensures fresh(rows)
    ensures data == null ==> rows.Length == 0
    ensures data != null ==> rows[..] == StableSort.Sorted(data[..], DateLe)
  {
    if data == null {
      rows := new DailyRow[0];
      return;
    }
    rows := new DailyRow[data.Length](i requires 0 <= i < data.Length reads data => data[i]);
    assert rows[..] == data[..];
    StableSort.SortInPlace(rows, DateLe);
  }

  /**
   * The sorted rows are in date order, are the input rows each as often,
   * and rows of the same date keep their input order.
   */
  lemma SortedRowsSpec(data: seq<DailyRow>, y: DailyRow)
    ensures forall i, j :: 0 <= i < j < |data| ==> LexLe(StableSort.Sorted(data, DateLe)[i].date, StableSort.Sorted(data, DateLe)[j].date)
    ensures multiset(StableSort.Sorted(data, DateLe)) == multiset(data)
    ensures StableSort.KeyClass(StableSort.Sorted(data, DateLe), y, DateLe) == StableSort.KeyClass(data, y, DateLe)
  {
    DateLeIsTotalPreorder();
    StableSort.SortedIsOrdered(data, DateLe);
    StableSort.SortedIsPermutation(data, DateLe);
    StableSort.SortedIsStable(data, y, DateLe);
  }

  // ---------------------------------------------------------------------
  // Layout

  /** The bar geometry in whole pixels. */
  datatype Layout = Layout(gap: int, targetBar: int, neededWidth: int, chartWidth: int, barWidth: int)

  /** The plot's inner width: the container less the 56 px and 12 px margins. */
  function InnerWidth(containerWidth: int): int {
    containerWidth - 56 - 12
  }

  /**
   * `gap`, `targetBar`, `neededWidth`, `chartWidth` and `barWidth` for `n`
   * rows; `Math.floor` of a quotient of positive integers is integer
   * division.
   */
  function BarLayout(n: nat, innerWidth: int, isMobile: bool): Layout
    requires n >= 1
  {
    var gap := if isMobile then 8 else 10;
    var targetBar := if isMobile then 28 else 34;
    var needed := n * targetBar + (n - 1) * gap;
    var chartWidth := if innerWidth >= needed then innerWidth else needed;
    Layout(gap, targetBar, needed, chartWidth, (chartWidth - (n - 1) * gap) / n)
  }

  /** `xPos(i)`: the left edge of bar `i`. */
  function XPos(l: Layout, i: nat): int {
    i * (l.barWidth + l.gap)
  }

  /**
   * The plot is as wide as the inner width and as the bars need; no bar is
   * narrower than the target; bars are evenly spaced, a gap apart, and the
   * last one ends within the plot, less than one pixel per bar short of
   * its right edge.
   */
  lemma BarLayoutSpec(n: nat, innerWidth: int, isMobile: bool)
    requires n >= 1
    ensures var l := BarLayout(n, innerWidth, isMobile);
      && l.chartWidth >= innerWidth && l.chartWidth >= l.neededWidth
      && l.barWidth >= l.targetBar
      && (forall i: nat :: i + 1 < n ==> XPos(l, i + 1) - XPos(l, i) == l.barWidth + l.gap)
      && (forall i: nat :: i + 1 < n ==> XPos(l, i) + l.barWidth < XPos(l, i + 1))
      && XPos(l, n - 1) + l.barWidth <= l.chartWidth
      && l.chartWidth - (XPos(l, n - 1) + l.barWidth) < n
  {
    var l := BarLayout(n, innerWidth, isMobile);
    var room := l.chartWidth - (n - 1) * l.gap;
    assert room >= n * l.targetBar;
    assert l.barWidth == room / n;
    QuotientBounds(room, n, l.targetBar);
    forall i: nat | i + 1 < n ensures XPos(l, i + 1) - XPos(l, i) == l.barWidth + l.gap {
      assert XPos(l, i + 1) == i * (l.barWidth + l.gap) + (l.barWidth + l.gap);
    }
    assert XPos(l, n - 1) + l.barWidth == l.barWidth * n + (n - 1) * l.gap;
  }

  /** `room / n` whole bars of at least `t` fit in `room`, with less than `n` left over. */
  lemma QuotientBounds(room: int, n: int, t: int)
    requires n > 0 && room >= n * t
    ensures room / n >= t
    ensures room - n < (room / n) * n <= room
  {
    var q, r := room / n, room % n;
    assert room == q * n + r && 0 <= r < n;
    assert (q - (t - 1)) * n > 0;
  }

  // ---------------------------------------------------------------------
  // Scale and colours

  /** `r.mae || 0`. */
  function MaeOr0(r: DailyRow): real {
    r.mae.GetOr(0.0)
  }

  /** `d3.max(rows, r => r.mae || 0)`: undefined for no rows. */
  function MaxMae(rows: seq<DailyRow>): (m: Option<real>)
    ensures m.None? <==> |rows| == 0
    ensures m.Some? ==> forall i :: 0 <= i < |rows| ==> MaeOr0(rows[i]) <= m.value
    ensures m.Some? ==> exists i :: 0 <= i < |rows| && MaeOr0(rows[i]) == m.value
  {
    if |rows| == 0 then None
    else
      var rest := MaxMae(rows[1..]);
      assert forall i :: 1 <= i < |rows| ==> rows[i] == rows[1..][i - 1];
      if rest.None? || MaeOr0(rows[0]) >= rest.value then Some(MaeOr0(rows[0])) else rest
  }

  /** `Math.max(10, d3.max(...) || 0) * 1.15`. */
  function YMax(rows: seq<DailyRow>): real {
    var top := MaxMae(rows).GetOr(0.0);
    (if 10.0 >= top then 10.0 else top) * 1.15
  }

  /**
   * The scale reaches at least 11.5 and at least 1.15 times every row's
   * MAE (a missing MAE counting as 0), and no further than that needs.
   */
  lemma YMaxSpec(rows: seq<DailyRow>)
    ensures YMax(rows) >= 11.5
    ensures forall i :: 0 <= i < |rows| ==> YMax(rows) >= 1.15 * MaeOr0(rows[i])
    ensures YMax(rows) == 11.5 || exists i :: 0 <= i < |rows| && YMax(rows) == 1.15 * MaeOr0(rows[i])
  {
  }

  /** The bar fills. */
  datatype BiasColour = Pos | Neg | Zero

  /** `color(d.bias || 0)`. */
  function BarColour(bias: Option<real>): BiasColour {
    var b := bias.GetOr(0.0);
    if b > 0.1 then Pos else if b < -0.1 then Neg else Zero
  }

  /**
   * Over-forecast days (bias above 0.1) are `pos`, under-forecast days
   * (below -0.1) `neg`, the band from -0.1 to 0.1 inclusive and a missing
   * bias `zero`; negating the bias swaps `pos` and `neg`.
   */
  lemma BarColourSpec(b: real)
    ensures BarColour(Some(b)) == Pos <==> b > 0.1
    ensures BarColour(Some(b)) == Neg <==> b < -0.1
    ensures BarColour(Some(b)) == Zero <==> -0.1 <= b <= 0.1
    ensures BarColour(None) == Zero
    ensures BarColour(Some(-b)) == (match BarColour(Some(b)) case Pos => Neg case Neg => Pos case Zero => Zero)
  {
  }

  /** What one render does with the sorted rows: clear both SVGs only, or lay out and scale the bars. */
  datatype Plan = Cleared | Drawn(layout: Layout, yMax: real)

  function RenderPlan(rows: seq<DailyRow>, containerWidth: int, isMobile: bool): Plan {
    if |rows| == 0 then Cleared
    else Drawn(BarLayout(|rows|, InnerWidth(containerWidth), isMobile), YMax(rows))
  }

  /**
   * With no rows the render only clears both SVGs; otherwise the plot is
   * at least the inner width, fits every bar of the target width, and its
   * scale reaches 11.5 and above every row's MAE.
   */
  lemma RenderPlanSpec(rows: seq<DailyRow>, containerWidth: int, isMobile: bool)
    ensures RenderPlan(rows, containerWidth, isMobile).Cleared? <==> |rows| == 0
    ensures RenderPlan(rows, containerWidth, isMobile).Drawn? ==>
      var plan := RenderPlan(rows, containerWidth, isMobile);
      && plan.layout.chartWidth >= InnerWidth(containerWidth)
      && plan.layout.barWidth >= plan.layout.targetBar
      && XPos(plan.layout, |rows| - 1) + plan.layout.barWidth <= plan.layout.chartWidth
      && plan.yMax >= 11.5
      && (forall i :: 0 <= i < |rows| ==> plan.yMax >= 1.15 * MaeOr0(rows[i]))
  {
    if |rows| > 0 {
      BarLayoutSpec(|rows|, InnerWidth(containerWidth), isMobile);
      YMaxSpec(rows);
    }
  }

  // ---------------------------------------------------------------------
  // The tooltip

  /** The tooltip style: `top`, and `left` and `right` each possibly `undefined`. */
  datatype BarPanel = BarPanel(top: real, left: Option<real>, right: Option<real>)

  function Placement(x: real, y: real, viewportWidth: real): BarPanel {
    BarPanel(y - 110.0,
      if x <= viewportWidth / 2.0 then Some(x + 18.0) else None,
      if x > viewportWidth / 2.0 then Some(viewportWidth - x + 18.0) else None)
  }

  /**
   * Exactly one of `left` and `right` is set, `left` iff the pointer is in
   * the left half (the middle included); the panel's near edge is 18 px
   * from the pointer.
   */
  lemma PlacementSpec(x: real, y: real, viewportWidth: real)
    ensures var p := Placement(x, y, viewportWidth);
      && p.top == y - 110.0
      && (p.left.Some? <==> !p.right.Some?)
      && (p.left.Some? <==> x <= viewportWidth / 2.0)
      && (p.left.Some? ==> p.left.value == x + 18.0)
      && (p.right.Some? ==> viewportWidth - p.right.value == x - 18.0)
  {
  }

  /** `event?.clientX ?? event?.touches?.[0]?.clientX ?? 0`. */
  function PointerCoordinate(client: Option<real>, touches: seq<real>): real {
    client.GetOr(if |touches| > 0 then touches[0] else 0.0)
  }

  /** `showTip`: show the row at the pointer (or first touch) and schedule hiding after 1 s. */
  method ShowTip(c: Tooltip.TooltipController<DailyRow>, d: DailyRow, clientX: Option<real>, clientY: Option<real>, touchesX: seq<real>, touchesY: seq<real>)
    requires c.Valid()
    modifies c
    ensures c.Valid() && c.visible && c.payload == Some(d)
    ensures c.x == PointerCoordinate(clientX, touchesX) && c.y == PointerCoordinate(clientY, touchesY)
    ensures c.hideTimer.Some? && c.armed == map[c.hideTimer.value := HideDelayMs]
  {
    var _ := c.Show(PointerCoordinate(clientX, touchesX), PointerCoordinate(clientY, touchesY), d, HideDelayMs);
  }

  /** A pointer-down keeps the tooltip only in the y-axis SVG or on a bar. */
  lemma BarHidesSpec(t: ChartCommon.Target)
    ensures !ChartCommon.CardHides(t, BarMarks) <==>
      t.YAxis? || (t.Plot? && ChartCommon.Closest(t.el, BarMarks))
  {
    ChartCommon.CardHidesSpec(t, BarMarks);
  }
}
