/**
 * Grid metrics of the timeline: column count, column width, pixel scale,
 * track widths and the day boundaries inside the visible range.
 */
module TimelineGrid {
  import opened Wrappers
  import opened Numeric

  type Pos = x: int | x > 0 witness 1

  /** Hours per column and milliseconds per hour (the time-scale module is not part of this model). */
  datatype TimeScale = TimeScale(colHours: Pos, hourMs: Pos) {
    /** Milliseconds covered by one column. */
    function ColMs(): (ms: int)
      ensures ms >= colHours && ms >= hourMs
    {
      colHours * hourMs
    }
  }

  /**
   * Local-calendar arithmetic: `nextMidnight(t)` is the start of the day after
   * the day of `t`, `addDay(t)` is `t` one calendar day later.
   */
  datatype Calendar = Calendar(nextMidnight: int -> int, addDay: int -> int) {
    /** Both operations move strictly forward in time. */
    ghost predicate Advances() {
      (forall t :: nextMidnight(t) > t) && (forall t :: addDay(t) > t)
    }
  }

  const DEFAULT_LEFT_COL_WIDTH: real := 280.0
  const MAX_COL: real := 140.0

  /** The narrowest column: 56 px on mobile, 72 px on desktop. */
  function MinCol(isMobile: bool): (w: real)
    ensures 0.0 < w <= MAX_COL
  {
    if isMobile then 56.0 else 72.0
  }

  /** The inputs of the grid computation; an absent left column width defaults to 280 px. */
  datatype GridParams = GridParams(
    fromMs: int,
    toMs: int,
    containerWidth: real,
    leftColWidth: Option<real>,
    isMobile: bool)

  datatype GridMetrics = GridMetrics(
    cols: int,
    colWidth: real,
    pxPerMs: real,
    trackPx: real,
    fullGridPx: real,
    daySplits: seq<int>)

  /** The window length, floored at 1 ms so that an empty or inverted window still divides. */
  function TotalMs(fromMs: int, toMs: int): (t: int)
    ensures t >= 1
    ensures t >= toMs - fromMs
    ensures toMs - fromMs >= 1 ==> t == toMs - fromMs
  {
    IntMax(1, toMs - fromMs)
  }

  /** `Math.ceil(totalMs / colMs)`: the fewest columns that cover `totalMs`. */
  function ColumnCount(totalMs: int, colMs: int): (cols: int)
    requires totalMs >= 1 && colMs >= 1
    ensures cols >= 1
    ensures cols * colMs >= totalMs
    ensures (cols - 1) * colMs < totalMs
  {
    var n := totalMs + colMs - 1;
    var q := n / colMs;
    assert n == q * colMs + n % colMs;
    assert (q - 1) * colMs == q * colMs - colMs;
    q
  }

  /** The pixels left for the track once the label column is taken, never negative. */
  function AvailableWidth(containerWidth: real, leftColWidth: real): (a: real)
    ensures a >= 0.0
    ensures containerWidth >= leftColWidth ==> a == containerWidth - leftColWidth
    ensures containerWidth <= leftColWidth ==> a == 0.0
  {
    RealMax(0.0, containerWidth - leftColWidth)
  }

  /**
   * `Math.max(MIN_COL, Math.min(MAX_COL, cols ? Math.floor(available / cols) : 100))`:
   * a whole number of pixels between the two column limits.
   */
  function ColumnWidth(available: real, cols: int, isMobile: bool): (w: real)
    ensures MinCol(isMobile) <= w <= MAX_COL
    ensures w == w.Floor as real
  {
    RealMax(MinCol(isMobile), RealMin(MAX_COL, FitWidth(available, cols)))
  }

  /**
   * The columns fit into the available width whenever it allows the narrowest
   * column, the narrowest column is used when it does not, and the widest one
   * when there is room for it.
   */
  lemma ColumnWidthFits(available: real, cols: int, isMobile: bool)
    requires cols >= 1
    ensures available >= MinCol(isMobile) * cols as real ==> ColumnWidth(available, cols, isMobile) * cols as real <= available
    ensures available < MinCol(isMobile) * cols as real ==> ColumnWidth(available, cols, isMobile) == MinCol(isMobile)
    ensures available >= MAX_COL * cols as real ==> ColumnWidth(available, cols, isMobile) == MAX_COL
    ensures ColumnWidth(available, cols, isMobile) < MAX_COL && available >= MinCol(isMobile) * cols as real ==>
              available < (ColumnWidth(available, cols, isMobile) + 1.0) * cols as real
  {
    FitWidthBounds(available, cols);
    FitWidthAgainst(available, cols, 140);
    FitWidthAgainst(available, cols, if isMobile then 56 else 72);
  }

  /** The column width the space allows before the limits apply; 100 px when there are no columns. */
  function FitWidth(available: real, cols: int): (r: real)
    ensures r == r.Floor as real
  {
    if cols != 0 then (available / cols as real).Floor as real else 100.0
  }

  /** With at least one column, the fitted width is the whole part of the per-column share. */
  lemma FitWidthBounds(available: real, cols: int)
    requires cols >= 1
    ensures FitWidth(available, cols) == FitWidth(available, cols).Floor as real
    ensures FitWidth(available, cols) * cols as real <= available
    ensures available < (FitWidth(available, cols) + 1.0) * cols as real
  {
    var q := available / cols as real;
    var fit := FitWidth(available, cols);
    assert q * cols as real == available;
    assert fit <= q < fit + 1.0;
    MulMonotone(fit, q, cols as real);
    MulStrict(q, fit + 1.0, cols as real);
    assert available < (fit + 1.0) * cols as real;
  }

  /** The fitted width reaches a whole limit `b` exactly when `cols` columns of width `b` fit. */
  lemma FitWidthAgainst(available: real, cols: int, b: int)
    requires cols >= 1
    ensures available >= b as real * cols as real <==> FitWidth(available, cols) >= b as real
  {
    var c := cols as real;
    var q := available / c;
    assert FitWidth(available, cols) == q.Floor as real;
    if available >= b as real * c {
      DivAtLeast(available, c, b as real);
      assert q >= b as real;
      assert q.Floor >= b;
    } else {
      DivBelow(available, c, b as real);
      assert q < b as real;
      assert q.Floor < b;
    }
  }

  lemma DivAtLeast(a: real, c: real, b: real)
    requires c > 0.0 && a >= b * c
    ensures a / c >= b
  {
    if a / c < b {
      MulStrict(a / c, b, c);
    }
  }

  lemma DivBelow(a: real, c: real, b: real)
    requires c > 0.0 && a < b * c
    ensures a / c < b
  {
    if a / c >= b {
      MulMonotone(b, a / c, c);
    }
  }

  lemma MulMonotone(x: real, y: real, c: real)
    requires x <= y && c > 0.0
    ensures x * c <= y * c
  {
  }

  lemma MulStrict(x: real, y: real, c: real)
    requires x < y && c > 0.0
    ensures x * c < y * c
  {
  }

  /** Pixels per millisecond: one column's width spread over the column's duration. */
  function PxPerMs(colWidth: real, colMs: int): (r: real)
    requires colMs >= 1
    ensures colWidth > 0.0 ==> r > 0.0
    ensures r * colMs as real == colWidth
  {
    colWidth / colMs as real
  }

  // ---------------------------------------------------------------------------
  // Day boundaries
  // ---------------------------------------------------------------------------

  /**
   * `splits` is the walk that starts at `first` and steps by `addDay` while it is
   * before `toMs`: nothing is skipped, nothing reaches `toMs`, and the walk stops
   * at the first step that would.
   */
  ghost predicate DaySplitChain(splits: seq<int>, first: int, toMs: int, addDay: int -> int) {
    && (forall i :: 0 <= i < |splits| ==> splits[i] < toMs)
    && (|splits| == 0 ==> first >= toMs)
    && (|splits| > 0 ==> splits[0] == first && addDay(splits[|splits| - 1]) >= toMs)
    && (forall i :: 0 <= i < |splits| - 1 ==> splits[i + 1] == addDay(splits[i]))
  }

  /** The `while (d < toMs)` loop collecting local midnights after `fromMs`. */
  method CollectDaySplits(fromMs: int, toMs: int, cal: Calendar) returns (splits: seq<int>)
    requires cal.Advances()
    ensures DaySplitChain(splits, cal.nextMidnight(fromMs), toMs, cal.addDay)
    ensures forall i, j :: 0 <= i < j < |splits| ==> splits[i] < splits[j]
    ensures forall i :: 0 <= i < |splits| ==> fromMs < splits[i] < toMs
  {
    splits := [];
    var d := cal.nextMidnight(fromMs);
    while d < toMs
      invariant d > fromMs
      invariant |splits| == 0 ==> d == cal.nextMidnight(fromMs)
      invariant |splits| > 0 ==> splits[0] == cal.nextMidnight(fromMs) && d == cal.addDay(splits[|splits| - 1])
      invariant forall i :: 0 <= i < |splits| - 1 ==> splits[i + 1] == cal.addDay(splits[i])
      invariant forall i :: 0 <= i < |splits| ==> fromMs < splits[i] < d && splits[i] < toMs
      invariant forall i, j :: 0 <= i < j < |splits| ==> splits[i] < splits[j]
      decreases toMs - d
    {
      splits := splits + [d];
      d := cal.addDay(d);
    }
  }

  // ---------------------------------------------------------------------------
  // The whole computation
  // ---------------------------------------------------------------------------

  /** The label column width the caller gave, or 280 px when it gave none. */
  function LeftColWidth(p: GridParams): (w: real)
    ensures p.leftColWidth.None? ==> w == 280.0
    ensures p.leftColWidth.Some? ==> w == p.leftColWidth.value
  {
    p.leftColWidth.GetOr(DEFAULT_LEFT_COL_WIDTH)
  }

  /**
   * The metrics of `useTimelineGrid` other than the day boundaries: enough
   * columns to cover the window and no more, and a column width within the
   * limits that is the narrowest one when the container has no room to spare.
   */
  function GridShape(p: GridParams, colMs: Pos): (g: GridMetrics)
    ensures g.cols >= 1
    ensures g.cols * colMs >= TotalMs(p.fromMs, p.toMs)
    ensures (g.cols - 1) * colMs < TotalMs(p.fromMs, p.toMs)
    ensures MinCol(p.isMobile) <= g.colWidth <= MAX_COL
    ensures p.containerWidth <= LeftColWidth(p) ==> g.colWidth == MinCol(p.isMobile)
    ensures g.daySplits == []
  {
    var leftColWidth := LeftColWidth(p);
    var cols := ColumnCount(TotalMs(p.fromMs, p.toMs), colMs);
    var colWidth := ColumnWidth(AvailableWidth(p.containerWidth, leftColWidth), cols, p.isMobile);
    var trackPx := cols as real * colWidth;
    GridMetrics(cols, colWidth, PxPerMs(colWidth, colMs), trackPx, leftColWidth + trackPx, [])
  }

  /** At the grid's scale one column spans `colMs`, and the track is the columns side by side. */
  lemma GridShapeScale(p: GridParams, colMs: Pos)
    ensures var g := GridShape(p, colMs);
      && g.pxPerMs > 0.0
      && g.pxPerMs * colMs as real == g.colWidth
      && g.trackPx == g.cols as real * g.colWidth
  {
  }

  /** The track is at least as wide as the whole window at the grid's scale. */
  lemma GridShapeCoversWindow(p: GridParams, colMs: Pos)
    ensures var g := GridShape(p, colMs);
      g.trackPx >= TotalMs(p.fromMs, p.toMs) as real * g.pxPerMs
  {
    var g := GridShape(p, colMs);
    GridShapeScale(p, colMs);
    TrackCoversWindow(TotalMs(p.fromMs, p.toMs), colMs, g.cols, g.colWidth, g.pxPerMs);
  }

  /**
   * The grid is the label column plus the track. Whenever the narrowest
   * columns fit beside the label column the grid fits the container, and
   * unless the columns are at their widest, one more pixel per column would
   * not fit.
   */
  lemma GridShapeFitsContainer(p: GridParams, colMs: Pos)
    ensures var g := GridShape(p, colMs);
      && g.fullGridPx == LeftColWidth(p) + g.trackPx
      && (p.containerWidth - LeftColWidth(p) >= MinCol(p.isMobile) * g.cols as real ==>
            && g.fullGridPx <= p.containerWidth
            && (g.colWidth < MAX_COL ==> p.containerWidth < g.fullGridPx + g.cols as real))
  {
    var g := GridShape(p, colMs);
    TrackFitsContainer(p.containerWidth, LeftColWidth(p), g.cols, g.colWidth, p.isMobile);
  }

  /** The body of `useTimelineGrid`: the grid shape together with the local midnights strictly inside the window. */
  method ComputeGrid(p: GridParams, scale: TimeScale, cal: Calendar) returns (g: GridMetrics)
    requires cal.Advances()
    ensures g.(daySplits := []) == GridShape(p, scale.ColMs())
    ensures DaySplitChain(g.daySplits, cal.nextMidnight(p.fromMs), p.toMs, cal.addDay)
    ensures forall i, j :: 0 <= i < j < |g.daySplits| ==> g.daySplits[i] < g.daySplits[j]
    ensures forall i :: 0 <= i < |g.daySplits| ==> p.fromMs < g.daySplits[i] < p.toMs
  {
    var shape := GridShape(p, scale.ColMs());
    var daySplits := CollectDaySplits(p.fromMs, p.toMs, cal);
    g := shape.(daySplits := daySplits);
  }

  /** When the container leaves room for the narrowest columns, the whole grid fits inside it. */
  lemma TrackFitsContainer(containerWidth: real, leftColWidth: real, cols: int, colWidth: real, isMobile: bool)
    requires cols >= 1
    requires colWidth == ColumnWidth(AvailableWidth(containerWidth, leftColWidth), cols, isMobile)
    ensures containerWidth - leftColWidth >= MinCol(isMobile) * cols as real ==>
              && leftColWidth + cols as real * colWidth <= containerWidth
              && (colWidth < MAX_COL ==> containerWidth < leftColWidth + cols as real * colWidth + cols as real)
  {
    ColumnWidthFits(AvailableWidth(containerWidth, leftColWidth), cols, isMobile);
    if containerWidth - leftColWidth >= MinCol(isMobile) * cols as real {
      MulMonotone(0.0, MinCol(isMobile), cols as real);
      assert containerWidth - leftColWidth >= 0.0;
      assert colWidth * cols as real <= containerWidth - leftColWidth;
      if colWidth < MAX_COL {
        assert containerWidth - leftColWidth < (colWidth + 1.0) * cols as real;
        assert (colWidth + 1.0) * cols as real == cols as real * colWidth + cols as real;
      }
    }
  }

  /** Columns that cover the window give a track at least as wide as the window at this scale. */
  lemma TrackCoversWindow(totalMs: int, colMs: int, cols: int, colWidth: real, pxPerMs: real)
    requires colMs >= 1 && cols * colMs >= totalMs
    requires pxPerMs > 0.0 && pxPerMs * colMs as real == colWidth
    ensures cols as real * colWidth >= totalMs as real * pxPerMs
  {
    calc {
      cols as real * colWidth;
      == (cols * colMs) as real * pxPerMs;
      >= { MulMonotone(totalMs as real, (cols * colMs) as real, pxPerMs); }
      totalMs as real * pxPerMs;
    }
  }
}
