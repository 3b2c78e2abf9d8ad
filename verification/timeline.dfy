/**
 * The timeline container: the column-width custom property, the tick
 * timestamps of the time scale, and the wiring that hands each row its facts
 * from the fact index.
 */
module Timeline {
  import opened Numeric
  import opened ShiftModel
  import opened TimelineFilters
  import opened FactIndex
  import opened TimelineGrid
  import opened BarSize
  import opened RowLayout

  /** `Math.round(trackPx / Math.max(cols, 1))`: the divisor is never zero. */
  function ColW(trackPx: real, cols: int): (w: int)
    ensures cols >= 1 ==> trackPx / cols as real - 0.5 < w as real <= trackPx / cols as real + 0.5
    ensures cols < 1 ==> trackPx - 0.5 < w as real <= trackPx + 0.5
  {
    Round(trackPx / IntMax(cols, 1) as real)
  }

  /** A track of `cols` whole-pixel columns yields back the column width. */
  lemma ColWOfWholeColumns(trackPx: real, cols: int, colWidth: real)
    requires cols >= 1 && colWidth == colWidth.Floor as real
    requires trackPx == cols as real * colWidth
    ensures ColW(trackPx, cols) as real == colWidth
  {
    assert trackPx / cols as real == colWidth;
    assert (colWidth + 0.5).Floor == colWidth.Floor;
  }

  /** For the grid's own track the rounded column width is exactly the grid's column width. */
  lemma ColWOfGrid(p: GridParams, colMs: Pos)
    ensures var g := GridShape(p, colMs);
      ColW(g.trackPx, g.cols) as real == g.colWidth
  {
    var g := GridShape(p, colMs);
    GridShapeScale(p, colMs);
    ColWOfWholeColumns(g.trackPx, g.cols, g.colWidth);
  }

  /** `fromMs + i * COL_HOURS * HOUR_MS` for `i = 0 .. cols`. */
  function Ticks(fromMs: int, cols: nat, scale: TimeScale): (ts: seq<int>)
    ensures |ts| == cols + 1
  {
    seq(cols + 1, i requires 0 <= i <= cols => fromMs + i * scale.colHours * scale.hourMs)
  }

  lemma TickStep(i: int, a: int, b: int)
    ensures (i + 1) * a * b == i * a * b + a * b
  {
  }

  /**
   * The first tick is the window start, consecutive ticks are one column
   * duration apart, so tick `i` is `i` columns after the start.
   */
  lemma {:induction false} TicksSpacing(fromMs: int, cols: nat, scale: TimeScale)
    ensures Ticks(fromMs, cols, scale)[0] == fromMs
    ensures forall i :: 0 <= i < cols ==> Ticks(fromMs, cols, scale)[i + 1] == Ticks(fromMs, cols, scale)[i] + scale.ColMs()
  {
    var ts := Ticks(fromMs, cols, scale);
    forall i | 0 <= i < cols
      ensures ts[i + 1] == ts[i] + scale.ColMs()
    {
      TickStep(i, scale.colHours, scale.hourMs);
    }
  }

  /** Columns that cover the window put the last tick at or after its end. */
  lemma TicksReachEnd(fromMs: int, toMs: int, cols: nat, scale: TimeScale)
    requires cols * scale.ColMs() >= TotalMs(fromMs, toMs)
    ensures Ticks(fromMs, cols, scale)[cols] >= toMs
  {
    assert cols * scale.colHours * scale.hourMs == cols * (scale.colHours * scale.hourMs);
  }

  /** With the grid's column count the last tick is at or after the end of the window. */
  lemma TicksCoverWindow(p: GridParams, scale: TimeScale)
    ensures var g := GridShape(p, scale.ColMs());
      var ts := Ticks(p.fromMs, g.cols, scale);
      ts[|ts| - 1] >= p.toMs
  {
    var g := GridShape(p, scale.ColMs());
    TicksReachEnd(p.fromMs, p.toMs, g.cols, scale);
  }

  // ---------------------------------------------------------------------------
  // Row wiring
  // ---------------------------------------------------------------------------

  /** What `Timeline` passes to one `Row`. */
  datatype RowProps = RowProps(key: string, row: RowVM, facts: seq<Interval>, isFirstRow: bool)

  /** Each row gets the facts stored under its key, or none; only the row at index 0 is the first row. */
  function WireRows(rows: seq<RowVM>, factIdx: Index): (r: seq<RowProps>)
    ensures |r| == |rows|
    ensures forall i :: 0 <= i < |r| ==>
              && r[i].row == rows[i]
              && r[i].key == rows[i].employee + "__" + rows[i].store
              && (r[i].key in factIdx ==> r[i].facts == factIdx[r[i].key])
              && (r[i].key !in factIdx ==> r[i].facts == [])
              && (r[i].isFirstRow <==> i == 0)
  {
    seq(|rows|, i requires 0 <= i < |rows| =>
      RowProps(RowKeyOf(rows[i]), rows[i], Lookup(factIdx, RowKeyOf(rows[i])), i == 0))
  }

  /** Over the index built from `facts`, each row receives exactly its key's intervals in input order. */
  lemma WireRowsFromIndex(rows: seq<RowVM>, facts: seq<ShiftFact>, msOf: string -> int, i: nat)
    requires i < |rows|
    ensures WireRows(rows, BuildFactIndex(facts, msOf))[i].facts == IntervalsFor(facts, RowKeyOf(rows[i]), msOf)
  {
    LookupIsIntervalsFor(facts, RowKeyOf(rows[i]), msOf);
  }

  /**
   * When no employee name can be confused across keys, every interval a row
   * receives is the verbatim interval of a fact of that same employee and
   * store, and every such fact's interval is received.
   */
  lemma WireRowsSamePair(rows: seq<RowVM>, facts: seq<ShiftFact>, msOf: string -> int, i: nat, iv: Interval)
    requires i < |rows|
    requires SeparatorFree(rows[i].employee)
    requires forall f :: f in facts ==> SeparatorFree(f.employee)
    ensures iv in WireRows(rows, BuildFactIndex(facts, msOf))[i].facts <==>
              exists f :: f in facts && f.employee == rows[i].employee && f.store == rows[i].store && iv == FactInterval(f, msOf)
  {
    var k := RowKeyOf(rows[i]);
    WireRowsFromIndex(rows, facts, msOf, i);
    if iv in IntervalsFor(facts, k, msOf) {
      IntervalsForOrigin(facts, k, msOf, iv);
      var f :| f in facts && FactKey(f) == k && iv == FactInterval(f, msOf);
      RowKeyInjective(f.employee, f.store, rows[i].employee, rows[i].store);
    }
    if exists f :: f in facts && f.employee == rows[i].employee && f.store == rows[i].store && iv == FactInterval(f, msOf) {
      var f :| f in facts && f.employee == rows[i].employee && f.store == rows[i].store && iv == FactInterval(f, msOf);
      var j :| 0 <= j < |facts| && facts[j] == f;
      IntervalsForComplete(facts, j, msOf);
    }
  }

  // ---------------------------------------------------------------------------
  // The whole track
  // ---------------------------------------------------------------------------

  /** The view every row of the timeline is drawn with: the default caps threshold applies. */
  function TimelineView(fromMs: int, pxPerMs: real, isMobile: bool, filters: FiltersState): (v: RowView)
    ensures v.showCapsThreshold == DEFAULT_CAPS_THRESHOLD
    ensures v.fromMs == fromMs && v.pxPerMs == pxPerMs && v.isMobile == isMobile && v.filters == filters
  {
    WithDefaultThreshold(fromMs, pxPerMs, isMobile, filters)
  }

  /**
   * The element lists of every segment of every row. Every row is drawn with
   * the container's window start, scale, layout flag and filters, the default
   * caps threshold, and the facts the index stores under the row's key.
   */
  function TimelineLayout(rows: seq<RowVM>, factIdx: Index, fromMs: int, pxPerMs: real, isMobile: bool, filters: FiltersState)
    : (r: seq<seq<seq<Element>>>)
    ensures |r| == |rows|
    ensures forall i :: 0 <= i < |r| ==>
              r[i] == RowLayout.RowLayout(TimelineView(fromMs, pxPerMs, isMobile, filters), rows[i], Lookup(factIdx, RowKeyOf(rows[i])))
  {
    var v := TimelineView(fromMs, pxPerMs, isMobile, filters);
    var props := WireRows(rows, factIdx);
    seq(|rows|, i requires 0 <= i < |rows| => RowLayout.RowLayout(v, props[i].row, props[i].facts))
  }

  /**
   * A plan segment of a row is marked absent exactly when facts and the Absence
   * switch are on and no fact of the row's key passes the overlap test against
   * the segment.
   */
  lemma TimelineAbsence(rows: seq<RowVM>, facts: seq<ShiftFact>, msOf: string -> int,
                        fromMs: int, pxPerMs: real, isMobile: bool, filters: FiltersState, i: nat, j: nat)
    requires i < |rows| && j < |rows[i].planSegs|
    ensures var layout := TimelineLayout(rows, BuildFactIndex(facts, msOf), fromMs, pxPerMs, isMobile, filters);
      var seg := rows[i].planSegs[j];
      HasAbsenceMarker(layout[i][j]) <==>
        && filters.showFact
        && filters.deviations.absence
        && forall f :: f in facts && FactKey(f) == RowKeyOf(rows[i]) ==> !Touches(FactInterval(f, msOf), seg)
  {
    var k := RowKeyOf(rows[i]);
    var seg := rows[i].planSegs[j];
    var v := TimelineView(fromMs, pxPerMs, isMobile, filters);
    var rowFacts := Lookup(BuildFactIndex(facts, msOf), k);
    LookupIsIntervalsFor(facts, k, msOf);
    SegmentLayoutAbsence(v, seg, rowFacts);
    if forall iv :: iv in rowFacts ==> !Touches(iv, seg) {
      forall f | f in facts && FactKey(f) == k
        ensures !Touches(FactInterval(f, msOf), seg)
      {
        var m :| 0 <= m < |facts| && facts[m] == f;
        IntervalsForComplete(facts, m, msOf);
      }
    }
    if forall f :: f in facts && FactKey(f) == k ==> !Touches(FactInterval(f, msOf), seg) {
      forall iv | iv in rowFacts
        ensures !Touches(iv, seg)
      {
        IntervalsForOrigin(facts, k, msOf, iv);
      }
    }
  }

  /**
   * A plan segment of a row carries a late cap exactly when facts and the Late
   * switch are on, its plan bar is not tiny, and some overlap of the row's
   * facts with the segment starts after it with a fact bar of at least 8 px,
   * the default caps threshold.
   */
  lemma TimelineLateCap(rows: seq<RowVM>, facts: seq<ShiftFact>, msOf: string -> int,
                        fromMs: int, pxPerMs: real, isMobile: bool, filters: FiltersState, i: nat, j: nat)
    requires i < |rows| && j < |rows[i].planSegs|
    ensures var layout := TimelineLayout(rows, BuildFactIndex(facts, msOf), fromMs, pxPerMs, isMobile, filters);
      var seg := rows[i].planSegs[j];
      var v := TimelineView(fromMs, pxPerMs, isMobile, filters);
      var overlaps := Overlaps(IntervalsFor(facts, RowKeyOf(rows[i]), msOf), seg);
      HasLateCap(layout[i][j]) <==>
        && filters.showFact
        && filters.deviations.late
        && BarWidth(v, seg, Plan) >= 44.0
        && exists k :: 0 <= k < |overlaps| && overlaps[k].s > seg.s && BarWidth(v, overlaps[k], Fact) >= 8.0
  {
    var v := TimelineView(fromMs, pxPerMs, isMobile, filters);
    var seg := rows[i].planSegs[j];
    LookupIsIntervalsFor(facts, RowKeyOf(rows[i]), msOf);
    SegmentLayoutLateCap(v, seg, IntervalsFor(facts, RowKeyOf(rows[i]), msOf));
  }
}
