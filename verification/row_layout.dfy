/**
 * The layout of one timeline row, as pure functions: for each plan segment a
 * plan bar, then (when facts are shown) one fact bar per overlapping fact with
 * its late and early caps, then an absence marker when no fact overlaps.
 * Coordinates are `left = (ms - fromMs) * pxPerMs` pixels from the track start.
 */
module RowLayout {
  import opened Numeric
  import opened ShiftModel
  import opened TimelineFilters
  import opened BarSize
  import PlanRows

  /** The visual elements of one segment, each with its `left` / `width` style numbers. */
  datatype Element =
    | PlanBar(left: real, width: real, size: SizeClass)
    | FactBar(left: real, width: real, size: SizeClass)
    | LateCap(left: real, width: real)
    | EarlyCap(left: real, width: real)
      /** The ring over the plan bar together with the chip centred on it. */
    | AbsenceRing(left: real, width: real, chipLeft: real)
    | AbsenceDot(left: real)

  /** The row inputs the segment layout reads. */
  datatype RowView = RowView(
    fromMs: int,
    pxPerMs: real,
    isMobile: bool,
    filters: FiltersState,
    showCapsThreshold: real)

  /** `showCapsThreshold` when the caller passes none. */
  const DEFAULT_CAPS_THRESHOLD: real := 8.0
  const CAP_MIN_WIDTH: real := 2.0
  const ABSENCE_RING_MIN_WIDTH: real := 64.0
  const ABSENCE_CHIP_HALF_WIDTH: real := 28.0
  const ABSENCE_DOT_INSET: real := 8.0

  function WithDefaultThreshold(fromMs: int, pxPerMs: real, isMobile: bool, filters: FiltersState): (v: RowView)
    ensures v.showCapsThreshold == 8.0
  {
    RowView(fromMs, pxPerMs, isMobile, filters, DEFAULT_CAPS_THRESHOLD)
  }

  /** The pixel offset of instant `ms` on the track. */
  function Px(v: RowView, ms: int): real {
    (ms - v.fromMs) as real * v.pxPerMs
  }

  /** The pixel distance between two instants is their distance in milliseconds at the row's scale. */
  lemma PxDistance(v: RowView, a: int, b: int)
    ensures Px(v, a) - Px(v, b) == (a - b) as real * v.pxPerMs
  {
    assert (a - v.fromMs) as real - (b - v.fromMs) as real == (a - b) as real;
  }

  /** A bar's width: its duration in pixels, but never below the floor for its kind. */
  function BarWidth(v: RowView, iv: Interval, kind: BarKind): (w: real)
    ensures w >= MinBarWidth(kind, v.isMobile)
    ensures w >= (iv.e - iv.s) as real * v.pxPerMs
    ensures w == MinBarWidth(kind, v.isMobile) || w == (iv.e - iv.s) as real * v.pxPerMs
  {
    RealMax((iv.e - iv.s) as real * v.pxPerMs, MinBarWidth(kind, v.isMobile))
  }

  // ---------------------------------------------------------------------------
  // Overlapping facts
  // ---------------------------------------------------------------------------

  /** The overlap test of the layout: `!(f.e < seg.s || f.s > seg.e)`. */
  predicate Touches(f: Interval, seg: PlanSeg) {
    !(f.e < seg.s || f.s > seg.e)
  }

  /** A fact that ends exactly where the segment starts, or starts exactly where it ends, overlaps it. */
  lemma TouchingEndpointsOverlap(f: Interval, seg: PlanSeg)
    ensures Touches(f, seg) <==> f.e >= seg.s && f.s <= seg.e
    ensures f.e == seg.s && f.s <= seg.e ==> Touches(f, seg)
    ensures f.s == seg.e && f.e >= seg.s ==> Touches(f, seg)
  {
  }

  /** The facts passing the overlap test, in the order of `facts`. */
  function Touching(facts: seq<Interval>, seg: PlanSeg): (r: seq<Interval>)
    ensures |r| <= |facts|
    ensures forall f :: f in r <==> f in facts && Touches(f, seg)
    decreases |facts|
  {
    if facts == [] then []
    else (if Touches(facts[0], seg) then [facts[0]] else []) + Touching(facts[1..], seg)
  }

  /** Filtering distributes over concatenation, so the overlaps keep the order of the facts. */
  lemma {:induction false} TouchingAppend(a: seq<Interval>, b: seq<Interval>, seg: PlanSeg)
    ensures Touching(a + b, seg) == Touching(a, seg) + Touching(b, seg)
    decreases |a|
  {
    if a != [] {
      var head := if Touches(a[0], seg) then [a[0]] else [];
      assert (a + b)[0] == a[0];
      assert (a + b)[1..] == a[1..] + b;
      TouchingAppend(a[1..], b, seg);
      calc {
        Touching(a + b, seg);
        head + Touching(a[1..] + b, seg);
        head + (Touching(a[1..], seg) + Touching(b, seg));
        (head + Touching(a[1..], seg)) + Touching(b, seg);
      }
    } else {
      assert a + b == b;
    }
  }

  /** A fact clamped into the segment. */
  function ClipTo(f: Interval, seg: PlanSeg): (fo: Interval)
    ensures seg.s <= seg.e ==> seg.s <= fo.s <= seg.e && seg.s <= fo.e <= seg.e
    ensures f.s <= f.e ==> fo.s <= fo.e
    ensures seg.s <= f.s <= seg.e ==> fo.s == f.s
    ensures seg.s <= f.e <= seg.e ==> fo.e == f.e
  {
    Interval(PlanRows.Clamp(f.s, seg.s, seg.e), PlanRows.Clamp(f.e, seg.s, seg.e))
  }

  /** `overlaps`: the touching facts, each clamped into the segment. */
  function Overlaps(facts: seq<Interval>, seg: PlanSeg): (r: seq<Interval>)
    decreases |facts|
  {
    if facts == [] then []
    else (if Touches(facts[0], seg) then [ClipTo(facts[0], seg)] else []) + Overlaps(facts[1..], seg)
  }

  /** The `k`-th overlap is the `k`-th touching fact clamped into the segment. */
  lemma {:induction false} OverlapsAreClippedTouching(facts: seq<Interval>, seg: PlanSeg)
    ensures |Overlaps(facts, seg)| == |Touching(facts, seg)|
    ensures forall k :: 0 <= k < |Overlaps(facts, seg)| ==>
              Overlaps(facts, seg)[k] == ClipTo(Touching(facts, seg)[k], seg)
    decreases |facts|
  {
    if facts != [] {
      OverlapsAreClippedTouching(facts[1..], seg);
    }
  }

  /** No fact overlaps exactly when no fact passes the overlap test. */
  lemma OverlapsEmpty(facts: seq<Interval>, seg: PlanSeg)
    ensures Overlaps(facts, seg) == [] <==> forall f :: f in facts ==> !Touches(f, seg)
  {
    OverlapsAreClippedTouching(facts, seg);
    if Touching(facts, seg) != [] {
      assert Touching(facts, seg)[0] in Touching(facts, seg);
    }
  }

  /** For a well-formed segment every overlap lies inside it. */
  lemma OverlapsInSegment(facts: seq<Interval>, seg: PlanSeg, k: nat)
    requires seg.s <= seg.e
    requires k < |Overlaps(facts, seg)|
    ensures var fo := Overlaps(facts, seg)[k];
      seg.s <= fo.s <= seg.e && seg.s <= fo.e <= seg.e
  {
    OverlapsAreClippedTouching(facts, seg);
  }

  // ---------------------------------------------------------------------------
  // Late and early amounts
  // ---------------------------------------------------------------------------

  /** `Math.max(0, fo.s - seg.s)`: how late the fact starts against this segment. */
  function LateMs(fo: Interval, seg: PlanSeg): (ms: int)
    ensures ms >= 0
    ensures ms > 0 <==> fo.s > seg.s
  {
    IntMax(0, fo.s - seg.s)
  }

  /** `Math.max(0, seg.e - fo.e)`: how early the fact ends against this segment. */
  function EarlyMs(fo: Interval, seg: PlanSeg): (ms: int)
    ensures ms >= 0
    ensures ms > 0 <==> fo.e < seg.e
  {
    IntMax(0, seg.e - fo.e)
  }

  /**
   * For an overlap of a well-formed segment, the late amount is the distance
   * from the segment start to the fact start and the early amount the distance
   * from the fact end to the segment end; neither exceeds the segment length.
   */
  lemma LateEarlyWithinSegment(f: Interval, seg: PlanSeg)
    requires seg.s <= seg.e
    ensures var fo := ClipTo(f, seg);
      && LateMs(fo, seg) == fo.s - seg.s
      && EarlyMs(fo, seg) == seg.e - fo.e
      && 0 <= LateMs(fo, seg) <= seg.e - seg.s
      && 0 <= EarlyMs(fo, seg) <= seg.e - seg.s
  {
  }

  /** A fact that touches a well-formed segment is late exactly when it starts after the segment does, early when it ends before. */
  lemma LateEarlyOfRawFact(f: Interval, seg: PlanSeg)
    requires seg.s <= seg.e && Touches(f, seg)
    ensures LateMs(ClipTo(f, seg), seg) > 0 <==> f.s > seg.s
    ensures EarlyMs(ClipTo(f, seg), seg) > 0 <==> f.e < seg.e
  {
  }

  // ---------------------------------------------------------------------------
  // Elements of one segment
  // ---------------------------------------------------------------------------

  /** Caps are drawn only when the plan bar is not tiny and the fact bar reaches the threshold. */
  predicate ShowCaps(v: RowView, planSize: SizeClass, fo: Interval) {
    planSize != Tiny && BarWidth(v, fo, Fact) >= v.showCapsThreshold
  }

  /** A cap spans `ms` milliseconds in pixels, and at least 2 px. */
  function CapWidth(v: RowView, ms: int): real {
    RealMax(ms as real * v.pxPerMs, CAP_MIN_WIDTH)
  }

  function LateCapFor(v: RowView, seg: PlanSeg, planLeft: real, planSize: SizeClass, fo: Interval): seq<Element> {
    var lateMs := LateMs(fo, seg);
    if ShowCaps(v, planSize, fo) && v.filters.deviations.Get(Late) && lateMs > 0
    then [LateCap(planLeft, CapWidth(v, lateMs))]
    else []
  }

  function EarlyCapFor(v: RowView, seg: PlanSeg, planSize: SizeClass, fo: Interval): seq<Element> {
    var earlyMs := EarlyMs(fo, seg);
    if ShowCaps(v, planSize, fo) && v.filters.deviations.Get(Early) && earlyMs > 0
    then [EarlyCap(Px(v, seg.e - earlyMs), CapWidth(v, earlyMs))]
    else []
  }

  /** One overlap: its fact bar, then the late cap, then the early cap. */
  function FactBlock(v: RowView, seg: PlanSeg, planLeft: real, planSize: SizeClass, fo: Interval): seq<Element> {
    var fWidth := BarWidth(v, fo, Fact);
    [FactBar(Px(v, fo.s), fWidth, GetBarSizeClass(fWidth))]
      + LateCapFor(v, seg, planLeft, planSize, fo)
      + EarlyCapFor(v, seg, planSize, fo)
  }

  /** The blocks of all overlaps, in overlap order. */
  function FactBlocks(v: RowView, seg: PlanSeg, planLeft: real, planSize: SizeClass, overlaps: seq<Interval>): seq<Element>
    decreases |overlaps|
  {
    if overlaps == [] then []
    else FactBlock(v, seg, planLeft, planSize, overlaps[0]) + FactBlocks(v, seg, planLeft, planSize, overlaps[1..])
  }

  /** A ring with a centred chip over a plan bar at least 64 px wide, otherwise a dot at its right end. */
  function AbsenceMarker(planLeft: real, planWidth: real): (r: seq<Element>)
    ensures |r| == 1
    ensures r[0].AbsenceRing? <==> planWidth >= 64.0
    ensures r[0].AbsenceRing? ==> r[0].left == planLeft && r[0].width == planWidth
    ensures r[0].AbsenceRing? ==> r[0].chipLeft + 28.0 == planLeft + planWidth / 2.0
    ensures r[0].AbsenceDot? ==> r[0].left + 8.0 == planLeft + planWidth
  {
    if planWidth >= ABSENCE_RING_MIN_WIDTH
    then [AbsenceRing(planLeft, planWidth, planLeft + planWidth / 2.0 - ABSENCE_CHIP_HALF_WIDTH)]
    else [AbsenceDot(planLeft + planWidth - ABSENCE_DOT_INSET)]
  }

  /** The elements rendered for plan segment `seg` against the row's fact intervals. */
  function SegmentLayout(v: RowView, seg: PlanSeg, facts: seq<Interval>): (r: seq<Element>)
    ensures |r| >= 1 && r[0].PlanBar?
    ensures r[0].left == (seg.s - v.fromMs) as real * v.pxPerMs
    ensures r[0].width == BarWidth(v, seg, Plan)
    ensures r[0].width >= MinBarWidth(Plan, v.isMobile)
    ensures r[0].width >= (seg.e - seg.s) as real * v.pxPerMs
    ensures r[0].size == GetBarSizeClass(r[0].width)
  {
    var left := Px(v, seg.s);
    var width := BarWidth(v, seg, Plan);
    var size := GetBarSizeClass(width);
    var overlaps := Overlaps(facts, seg);
    [PlanBar(left, width, size)]
      + (if v.filters.showFact then FactBlocks(v, seg, left, size, overlaps) else [])
      + (if v.filters.showFact && v.filters.deviations.Get(Absence) && overlaps == []
         then AbsenceMarker(left, width) else [])
  }

  // ---------------------------------------------------------------------------
  // What a segment's element list contains
  // ---------------------------------------------------------------------------

  predicate HasLateCap(es: seq<Element>) {
    exists e :: e in es && e.LateCap?
  }

  predicate HasEarlyCap(es: seq<Element>) {
    exists e :: e in es && e.EarlyCap?
  }

  predicate HasAbsenceMarker(es: seq<Element>) {
    exists e :: e in es && (e.AbsenceRing? || e.AbsenceDot?)
  }

  predicate HasAbsenceRing(es: seq<Element>) {
    exists e :: e in es && e.AbsenceRing?
  }

  /** The fact bars of an element list, in order. */
  function FactBarsOf(es: seq<Element>): seq<Element>
    decreases |es|
  {
    if es == [] then []
    else (if es[0].FactBar? then [es[0]] else []) + FactBarsOf(es[1..])
  }

  lemma {:induction false} FactBarsOfAppend(a: seq<Element>, b: seq<Element>)
    ensures FactBarsOf(a + b) == FactBarsOf(a) + FactBarsOf(b)
    decreases |a|
  {
    if a == [] {
      assert a + b == b;
    } else {
      assert (a + b)[0] == a[0];
      assert (a + b)[1..] == a[1..] + b;
      FactBarsOfAppend(a[1..], b);
    }
  }

  /** One overlap's block holds exactly one fact bar, at the overlap's start, and no absence marker. */
  lemma FactBlockBar(v: RowView, seg: PlanSeg, planLeft: real, planSize: SizeClass, fo: Interval)
    ensures var b := FactBlock(v, seg, planLeft, planSize, fo);
      && FactBarsOf(b) == [FactBar(Px(v, fo.s), BarWidth(v, fo, Fact), GetBarSizeClass(BarWidth(v, fo, Fact)))]
      && !HasAbsenceMarker(b)
  {
    var fWidth := BarWidth(v, fo, Fact);
    var bar := [FactBar(Px(v, fo.s), fWidth, GetBarSizeClass(fWidth))];
    var late := LateCapFor(v, seg, planLeft, planSize, fo);
    var early := EarlyCapFor(v, seg, planSize, fo);
    FactBarsOfAppend(bar + late, early);
    FactBarsOfAppend(bar, late);
  }

  /**
   * An overlap's block has a late cap exactly when caps are shown, the Late
   * switch is on and the fact starts after the segment. The cap is drawn from
   * the plan bar's left edge across the lateness in pixels (so up to the fact
   * bar's left edge), widened to 2 px when that is less.
   */
  lemma FactBlockLateCap(v: RowView, seg: PlanSeg, planLeft: real, planSize: SizeClass, fo: Interval)
    ensures var b := FactBlock(v, seg, planLeft, planSize, fo);
      && (HasLateCap(b) <==> ShowCaps(v, planSize, fo) && v.filters.deviations.late && fo.s > seg.s)
      && (forall e :: e in b && e.LateCap? ==>
            && fo.s > seg.s
            && e.left == planLeft
            && e.width == RealMax((fo.s - seg.s) as real * v.pxPerMs, 2.0)
            && e.width == RealMax(Px(v, fo.s) - Px(v, seg.s), 2.0))
  {
    var late := LateCapFor(v, seg, planLeft, planSize, fo);
    PxDistance(v, fo.s, seg.s);
    if late != [] {
      assert late[0] in FactBlock(v, seg, planLeft, planSize, fo);
      assert LateMs(fo, seg) == fo.s - seg.s;
    }
  }

  /**
   * An overlap's block has an early cap exactly when caps are shown, the Early
   * switch is on and the fact ends before the segment. The cap is drawn from
   * the fact's end across the early leave in pixels (so up to the segment's
   * end), widened to 2 px when that is less.
   */
  lemma FactBlockEarlyCap(v: RowView, seg: PlanSeg, planLeft: real, planSize: SizeClass, fo: Interval)
    ensures var b := FactBlock(v, seg, planLeft, planSize, fo);
      && (HasEarlyCap(b) <==> ShowCaps(v, planSize, fo) && v.filters.deviations.early && fo.e < seg.e)
      && (forall e :: e in b && e.EarlyCap? ==>
            && fo.e < seg.e
            && e.left == Px(v, fo.e)
            && e.width == RealMax((seg.e - fo.e) as real * v.pxPerMs, 2.0)
            && e.width == RealMax(Px(v, seg.e) - Px(v, fo.e), 2.0))
  {
    var early := EarlyCapFor(v, seg, planSize, fo);
    PxDistance(v, seg.e, fo.e);
    if early != [] {
      assert early[0] in FactBlock(v, seg, planLeft, planSize, fo);
      assert EarlyMs(fo, seg) == seg.e - fo.e;
    }
  }

  /** The late cap `e` of one overlap's block, without quantifiers: its start and its width. */
  lemma LateCapOfBlock(v: RowView, seg: PlanSeg, planLeft: real, planSize: SizeClass, fo: Interval, e: Element)
    requires e in FactBlock(v, seg, planLeft, planSize, fo) && e.LateCap?
    ensures fo.s > seg.s && e.left == planLeft && e.width == CapWidth(v, fo.s - seg.s)
  {
    assert LateMs(fo, seg) == fo.s - seg.s;
  }

  /** The early cap `e` of one overlap's block, without quantifiers: its start and its width. */
  lemma EarlyCapOfBlock(v: RowView, seg: PlanSeg, planLeft: real, planSize: SizeClass, fo: Interval, e: Element)
    requires e in FactBlock(v, seg, planLeft, planSize, fo) && e.EarlyCap?
    ensures fo.e < seg.e && e.left == Px(v, fo.e) && e.width == CapWidth(v, seg.e - fo.e)
  {
    assert EarlyMs(fo, seg) == seg.e - fo.e;
  }

  /** An element belongs to the blocks exactly when it belongs to the block of some overlap. */
  lemma {:induction false} FactBlocksMember(v: RowView, seg: PlanSeg, planLeft: real, planSize: SizeClass, overlaps: seq<Interval>, e: Element)
    ensures e in FactBlocks(v, seg, planLeft, planSize, overlaps) <==>
              exists k :: 0 <= k < |overlaps| && e in FactBlock(v, seg, planLeft, planSize, overlaps[k])
    decreases |overlaps|
  {
    if overlaps != [] {
      FactBlocksMember(v, seg, planLeft, planSize, overlaps[1..], e);
      if e in FactBlocks(v, seg, planLeft, planSize, overlaps[1..]) {
        var k :| 0 <= k < |overlaps[1..]| && e in FactBlock(v, seg, planLeft, planSize, overlaps[1..][k]);
        assert overlaps[k + 1] == overlaps[1..][k];
      }
      if exists k :: 0 <= k < |overlaps| && e in FactBlock(v, seg, planLeft, planSize, overlaps[k]) {
        var k :| 0 <= k < |overlaps| && e in FactBlock(v, seg, planLeft, planSize, overlaps[k]);
        if k > 0 {
          assert overlaps[1..][k - 1] == overlaps[k];
        }
      }
    }
  }

  /** The blocks hold one fact bar per overlap, in overlap order, at the overlap's start. */
  lemma {:induction false} FactBlocksBars(v: RowView, seg: PlanSeg, planLeft: real, planSize: SizeClass, overlaps: seq<Interval>)
    ensures var bars := FactBarsOf(FactBlocks(v, seg, planLeft, planSize, overlaps));
      && |bars| == |overlaps|
      && forall k :: 0 <= k < |bars| ==>
           bars[k] == FactBar(Px(v, overlaps[k].s), BarWidth(v, overlaps[k], Fact), GetBarSizeClass(BarWidth(v, overlaps[k], Fact)))
    decreases |overlaps|
  {
    if overlaps != [] {
      FactBlockBar(v, seg, planLeft, planSize, overlaps[0]);
      FactBarsOfAppend(FactBlock(v, seg, planLeft, planSize, overlaps[0]), FactBlocks(v, seg, planLeft, planSize, overlaps[1..]));
      FactBlocksBars(v, seg, planLeft, planSize, overlaps[1..]);
    }
  }

  /** With the fact layer hidden a segment is drawn as its plan bar alone. */
  lemma SegmentLayoutHidesFacts(v: RowView, seg: PlanSeg, facts: seq<Interval>)
    requires !v.filters.showFact
    ensures |SegmentLayout(v, seg, facts)| == 1
    ensures FactBarsOf(SegmentLayout(v, seg, facts)) == []
    ensures !HasLateCap(SegmentLayout(v, seg, facts)) && !HasEarlyCap(SegmentLayout(v, seg, facts))
    ensures !HasAbsenceMarker(SegmentLayout(v, seg, facts))
  {
  }

  /**
   * With facts shown, the segment's fact bars are the overlaps' bars in overlap
   * order: each starts at its overlap's start, is as wide as the overlap's fact
   * bar width (never below the fact minimum) and carries that width's tier.
   */
  lemma SegmentLayoutFactBars(v: RowView, seg: PlanSeg, facts: seq<Interval>)
    requires v.filters.showFact
    ensures var bars := FactBarsOf(SegmentLayout(v, seg, facts));
      var overlaps := Overlaps(facts, seg);
      && |bars| == |overlaps|
      && forall k :: 0 <= k < |bars| ==>
           && bars[k].FactBar?
           && bars[k].left == Px(v, overlaps[k].s)
           && bars[k].width == BarWidth(v, overlaps[k], Fact)
           && bars[k].width >= MinBarWidth(Fact, v.isMobile)
           && bars[k].size == GetBarSizeClass(bars[k].width)
  {
    var r := SegmentLayout(v, seg, facts);
    var left := Px(v, seg.s);
    var width := BarWidth(v, seg, Plan);
    var size := GetBarSizeClass(width);
    var overlaps := Overlaps(facts, seg);
    var blocks := FactBlocks(v, seg, left, size, overlaps);
    var absence := if v.filters.deviations.absence && overlaps == [] then AbsenceMarker(left, width) else [];
    assert r == [PlanBar(left, width, size)] + blocks + absence;
    FactBarsOfAppend([PlanBar(left, width, size)] + blocks, absence);
    FactBarsOfAppend([PlanBar(left, width, size)], blocks);
    assert FactBarsOf(absence) == [] by {
      if absence != [] {
        assert absence == [absence[0]];
      }
    }
    FactBlocksBars(v, seg, left, size, overlaps);
  }

  /**
   * A segment carries a late cap exactly when facts are shown, the Late switch
   * is on, the plan bar is at least 44 px wide (not tiny), and some overlap
   * starts after the segment with a fact bar reaching the caps threshold.
   */
  lemma SegmentLayoutLateCap(v: RowView, seg: PlanSeg, facts: seq<Interval>)
    ensures var r := SegmentLayout(v, seg, facts);
      var overlaps := Overlaps(facts, seg);
      HasLateCap(r) <==>
        && v.filters.showFact
        && v.filters.deviations.late
        && r[0].width >= 44.0
        && exists k :: 0 <= k < |overlaps| && overlaps[k].s > seg.s && BarWidth(v, overlaps[k], Fact) >= v.showCapsThreshold
  {
    var r := SegmentLayout(v, seg, facts);
    var left := Px(v, seg.s);
    var width := BarWidth(v, seg, Plan);
    var size := GetBarSizeClass(width);
    var overlaps := Overlaps(facts, seg);
    if HasLateCap(r) {
      var e :| e in r && e.LateCap?;
      FactBlocksMember(v, seg, left, size, overlaps, e);
      var k :| 0 <= k < |overlaps| && e in FactBlock(v, seg, left, size, overlaps[k]);
      FactBlockLateCap(v, seg, left, size, overlaps[k]);
    }
    if && v.filters.showFact && v.filters.deviations.late && width >= 44.0
       && exists k :: 0 <= k < |overlaps| && overlaps[k].s > seg.s && BarWidth(v, overlaps[k], Fact) >= v.showCapsThreshold
    {
      var k :| 0 <= k < |overlaps| && overlaps[k].s > seg.s && BarWidth(v, overlaps[k], Fact) >= v.showCapsThreshold;
      FactBlockLateCap(v, seg, left, size, overlaps[k]);
      var e :| e in FactBlock(v, seg, left, size, overlaps[k]) && e.LateCap?;
      FactBlocksMember(v, seg, left, size, overlaps, e);
      assert e in r;
    }
  }

  /** `w` is the cap width of some overlap that starts after the segment: its lateness in pixels, at least 2. */
  predicate LateCapWidthOf(v: RowView, seg: PlanSeg, overlaps: seq<Interval>, w: real) {
    exists k :: 0 <= k < |overlaps| && overlaps[k].s > seg.s && w == CapWidth(v, overlaps[k].s - seg.s)
  }

  /** A late cap among the blocks starts at `planLeft` and has the width of some late overlap's cap. */
  lemma LateCapInBlocks(v: RowView, seg: PlanSeg, planLeft: real, planSize: SizeClass, overlaps: seq<Interval>, e: Element)
    requires e in FactBlocks(v, seg, planLeft, planSize, overlaps) && e.LateCap?
    ensures e.left == planLeft && e.width >= 2.0 && LateCapWidthOf(v, seg, overlaps, e.width)
  {
    FactBlocksMember(v, seg, planLeft, planSize, overlaps, e);
    var k :| 0 <= k < |overlaps| && e in FactBlock(v, seg, planLeft, planSize, overlaps[k]);
    LateCapOfBlock(v, seg, planLeft, planSize, overlaps[k], e);
  }

  /**
   * Every late cap starts at the plan bar's left edge and is as wide as the
   * lateness of some late overlap in pixels, or 2 px when that is less.
   */
  lemma SegmentLayoutLateCapPlacement(v: RowView, seg: PlanSeg, facts: seq<Interval>)
    ensures var r := SegmentLayout(v, seg, facts);
      var overlaps := Overlaps(facts, seg);
      forall e :: e in r && e.LateCap? ==>
        e.left == r[0].left && e.width >= 2.0 && LateCapWidthOf(v, seg, overlaps, e.width)
  {
    var r := SegmentLayout(v, seg, facts);
    var left := Px(v, seg.s);
    var size := GetBarSizeClass(BarWidth(v, seg, Plan));
    var overlaps := Overlaps(facts, seg);
    forall e | e in r && e.LateCap?
      ensures e.left == left && e.width >= 2.0 && LateCapWidthOf(v, seg, overlaps, e.width)
    {
      LateCapInBlocks(v, seg, left, size, overlaps, e);
    }
  }

  /**
   * A segment carries an early cap exactly when facts are shown, the Early
   * switch is on, the plan bar is not tiny, and some overlap ends before the
   * segment with a fact bar reaching the caps threshold.
   */
  lemma SegmentLayoutEarlyCap(v: RowView, seg: PlanSeg, facts: seq<Interval>)
    ensures var r := SegmentLayout(v, seg, facts);
      var overlaps := Overlaps(facts, seg);
      HasEarlyCap(r) <==>
        && v.filters.showFact
        && v.filters.deviations.early
        && r[0].width >= 44.0
        && exists k :: 0 <= k < |overlaps| && overlaps[k].e < seg.e && BarWidth(v, overlaps[k], Fact) >= v.showCapsThreshold
  {
    var r := SegmentLayout(v, seg, facts);
    var left := Px(v, seg.s);
    var width := BarWidth(v, seg, Plan);
    var size := GetBarSizeClass(width);
    var overlaps := Overlaps(facts, seg);
    if HasEarlyCap(r) {
      var e :| e in r && e.EarlyCap?;
      FactBlocksMember(v, seg, left, size, overlaps, e);
      var k :| 0 <= k < |overlaps| && e in FactBlock(v, seg, left, size, overlaps[k]);
      FactBlockEarlyCap(v, seg, left, size, overlaps[k]);
    }
    if && v.filters.showFact && v.filters.deviations.early && width >= 44.0
       && exists k :: 0 <= k < |overlaps| && overlaps[k].e < seg.e && BarWidth(v, overlaps[k], Fact) >= v.showCapsThreshold
    {
      var k :| 0 <= k < |overlaps| && overlaps[k].e < seg.e && BarWidth(v, overlaps[k], Fact) >= v.showCapsThreshold;
      FactBlockEarlyCap(v, seg, left, size, overlaps[k]);
      var e :| e in FactBlock(v, seg, left, size, overlaps[k]) && e.EarlyCap?;
      FactBlocksMember(v, seg, left, size, overlaps, e);
      assert e in r;
    }
  }

  /**
   * `(x, w)` is the placement of the early cap of some overlap that ends before
   * the segment: from that overlap's end, as wide as the early leave in pixels,
   * at least 2.
   */
  predicate EarlyCapOf(v: RowView, seg: PlanSeg, overlaps: seq<Interval>, x: real, w: real) {
    exists k :: 0 <= k < |overlaps| && overlaps[k].e < seg.e && x == Px(v, overlaps[k].e)
      && w == CapWidth(v, seg.e - overlaps[k].e)
  }

  /** An early cap among the blocks is placed as the early cap of some early overlap. */
  lemma EarlyCapInBlocks(v: RowView, seg: PlanSeg, planLeft: real, planSize: SizeClass, overlaps: seq<Interval>, e: Element)
    requires e in FactBlocks(v, seg, planLeft, planSize, overlaps) && e.EarlyCap?
    ensures e.width >= 2.0 && EarlyCapOf(v, seg, overlaps, e.left, e.width)
  {
    FactBlocksMember(v, seg, planLeft, planSize, overlaps, e);
    var k :| 0 <= k < |overlaps| && e in FactBlock(v, seg, planLeft, planSize, overlaps[k]);
    EarlyCapOfBlock(v, seg, planLeft, planSize, overlaps[k], e);
  }

  /**
   * Every early cap starts where an overlap that ends before the segment ends,
   * and is as wide as that overlap's early leave in pixels, or 2 px when that is less.
   */
  lemma SegmentLayoutEarlyCapPlacement(v: RowView, seg: PlanSeg, facts: seq<Interval>)
    ensures var r := SegmentLayout(v, seg, facts);
      var overlaps := Overlaps(facts, seg);
      forall e :: e in r && e.EarlyCap? ==>
        e.width >= 2.0 && EarlyCapOf(v, seg, overlaps, e.left, e.width)
  {
    var r := SegmentLayout(v, seg, facts);
    var left := Px(v, seg.s);
    var size := GetBarSizeClass(BarWidth(v, seg, Plan));
    var overlaps := Overlaps(facts, seg);
    forall e | e in r && e.EarlyCap?
      ensures e.width >= 2.0 && EarlyCapOf(v, seg, overlaps, e.left, e.width)
    {
      EarlyCapInBlocks(v, seg, left, size, overlaps, e);
    }
  }

  /**
   * A segment carries an absence marker exactly when facts are shown, the
   * Absence switch is on and no fact passes the overlap test; the marker is the
   * ring exactly when the plan bar is at least 64 px wide.
   */
  lemma SegmentLayoutAbsence(v: RowView, seg: PlanSeg, facts: seq<Interval>)
    ensures var r := SegmentLayout(v, seg, facts);
      && (HasAbsenceMarker(r) <==>
            v.filters.showFact && v.filters.deviations.absence && forall f :: f in facts ==> !Touches(f, seg))
      && (HasAbsenceRing(r) <==>
            && v.filters.showFact && v.filters.deviations.absence && (forall f :: f in facts ==> !Touches(f, seg))
            && r[0].width >= 64.0)
  {
    var r := SegmentLayout(v, seg, facts);
    var left := Px(v, seg.s);
    var width := BarWidth(v, seg, Plan);
    var size := GetBarSizeClass(width);
    var overlaps := Overlaps(facts, seg);
    var blocks := FactBlocks(v, seg, left, size, overlaps);
    var absence := if v.filters.showFact && v.filters.deviations.absence && overlaps == [] then AbsenceMarker(left, width) else [];
    assert r == [PlanBar(left, width, size)] + (if v.filters.showFact then blocks else []) + absence;
    OverlapsEmpty(facts, seg);
    forall e | e in blocks
      ensures !e.AbsenceRing? && !e.AbsenceDot?
    {
      FactBlocksMember(v, seg, left, size, overlaps, e);
      var k :| 0 <= k < |overlaps| && e in FactBlock(v, seg, left, size, overlaps[k]);
      FactBlockBar(v, seg, left, size, overlaps[k]);
    }
    if absence != [] {
      assert absence[0] in r;
    }
  }

  /** `row.planSegs.map(...)`: one element list per plan segment, in segment order. */
  function RowLayout(v: RowView, row: RowVM, facts: seq<Interval>): (r: seq<seq<Element>>)
    ensures |r| == |row.planSegs|
    ensures forall j :: 0 <= j < |r| ==>
              && r[j] == SegmentLayout(v, row.planSegs[j], facts)
              && r[j][0].PlanBar? && r[j][0].left == Px(v, row.planSegs[j].s)
  {
    seq(|row.planSegs|, j requires 0 <= j < |row.planSegs| => SegmentLayout(v, row.planSegs[j], facts))
  }
}
