/**
 * Plan row grouping: one pass over the plan records that keys each record by
 * `employee__store`, drops the records that miss the window, clips the rest
 * into the window and appends them to their row (rows keep the order in which
 * their keys were first seen, as a JavaScript `Map` does); then each row's
 * segments are sorted by start.
 */
module PlanRows {
  import opened Wrappers
  import opened Numeric
  import opened ShiftModel
  import opened SegmentSort

  /** `Math.max(a, Math.min(b, n))`: `n` bounded into `[a, b]`; an inverted range yields `a`. */
  function Clamp(n: int, a: int, b: int): (r: int)
    ensures a <= b ==> a <= r <= b
    ensures a <= n <= b ==> r == n
    ensures n < a ==> r == a
    ensures a <= b < n ==> r == b
    ensures b < a ==> r == a
  {
    IntMax(a, IntMin(b, n))
  }

  /** Clamping is monotone in the clamped value. */
  lemma ClampMonotone(n1: int, n2: int, a: int, b: int)
    requires n1 <= n2
    ensures Clamp(n1, a, b) <= Clamp(n2, a, b)
  {
  }

  /** The visible window `[fromMs, untilMs]`, both ends inclusive. */
  datatype Window = Window(fromMs: int, untilMs: int)

  predicate InWindow(seg: PlanSeg, w: Window) {
    w.fromMs <= seg.s <= w.untilMs && w.fromMs <= seg.e <= w.untilMs
  }

  /** A record is kept unless it ends before the window or starts after it. */
  predicate Intersects(p: ShiftPlan, w: Window, msOf: string -> int) {
    !(msOf(p.endPlanned) < w.fromMs || msOf(p.startPlanned) > w.untilMs)
  }

  /** Both endpoints of a record clamped into the window. */
  function ClipToWindow(p: ShiftPlan, w: Window, msOf: string -> int): (seg: PlanSeg)
    ensures w.fromMs <= w.untilMs ==> InWindow(seg, w)
    ensures msOf(p.startPlanned) <= msOf(p.endPlanned) ==> seg.s <= seg.e
    ensures InWindow(Interval(msOf(p.startPlanned), msOf(p.endPlanned)), w) ==>
              seg == Interval(msOf(p.startPlanned), msOf(p.endPlanned))
  {
    var s := msOf(p.startPlanned);
    var e := msOf(p.endPlanned);
    Interval(Clamp(s, w.fromMs, w.untilMs), Clamp(e, w.fromMs, w.untilMs))
  }

  // ---------------------------------------------------------------------------
  // The accumulating pass
  // ---------------------------------------------------------------------------

  /** The index of the row already created for key `k`, if any (`map.has` / `map.get`). */
  function FindRow(rows: seq<RowVM>, k: string): (r: Option<nat>)
    ensures r.Some? ==> r.value < |rows| && RowKeyOf(rows[r.value]) == k
    ensures r.None? ==> forall i :: 0 <= i < |rows| ==> RowKeyOf(rows[i]) != k
    decreases |rows|
  {
    if rows == [] then None
    else if RowKeyOf(rows[0]) == k then Some(0)
    else
      match FindRow(rows[1..], k)
      case None => None
      case Some(i) => Some(i + 1)
  }

  /** One loop iteration: skip, create the row from this record, or append to the existing row. */
  function AddRecord(rows: seq<RowVM>, p: ShiftPlan, w: Window, msOf: string -> int): seq<RowVM> {
    if !Intersects(p, w, msOf) then rows
    else
      var seg := ClipToWindow(p, w, msOf);
      match FindRow(rows, PlanKey(p))
      case None => rows + [RowVM(p.employee, p.store, p.role, [seg])]
      case Some(i) => rows[i := rows[i].(planSegs := rows[i].planSegs + [seg])]
  }

  /** The rows after the loop has visited every record of `plan`, unsorted. */
  function Accumulate(plan: seq<ShiftPlan>, w: Window, msOf: string -> int): seq<RowVM>
    decreases |plan|
  {
    if plan == [] then []
    else AddRecord(Accumulate(plan[..|plan| - 1], w, msOf), plan[|plan| - 1], w, msOf)
  }

  function SortRow(r: RowVM): RowVM {
    r.(planSegs := SortByStart(r.planSegs))
  }

  /** `groupRows(plan, fromMs, untilMs)`: the accumulated rows, each with its segments sorted by start. */
  function GroupRows(plan: seq<ShiftPlan>, w: Window, msOf: string -> int): (rows: seq<RowVM>)
    ensures |rows| == |Accumulate(plan, w, msOf)|
  {
    var acc := Accumulate(plan, w, msOf);
    seq(|acc|, i requires 0 <= i < |acc| => SortRow(acc[i]))
  }

  // ---------------------------------------------------------------------------
  // Reference definitions, read straight off the input
  // ---------------------------------------------------------------------------

  predicate Contributes(p: ShiftPlan, k: string, w: Window, msOf: string -> int) {
    Intersects(p, w, msOf) && PlanKey(p) == k
  }

  /** The clipped segments of the intersecting records with key `k`, in input order. */
  function SegmentsFor(plan: seq<ShiftPlan>, k: string, w: Window, msOf: string -> int): seq<PlanSeg>
    decreases |plan|
  {
    if plan == [] then []
    else
      var last := plan[|plan| - 1];
      SegmentsFor(plan[..|plan| - 1], k, w, msOf)
        + (if Contributes(last, k, w, msOf) then [ClipToWindow(last, w, msOf)] else [])
  }

  /** The index of the first intersecting record with key `k`. */
  function FirstRecordFor(plan: seq<ShiftPlan>, k: string, w: Window, msOf: string -> int): (r: Option<nat>)
    ensures r.Some? ==> r.value < |plan| && Contributes(plan[r.value], k, w, msOf)
    ensures r.Some? ==> forall j :: 0 <= j < r.value ==> !Contributes(plan[j], k, w, msOf)
    ensures r.None? ==> forall j :: 0 <= j < |plan| ==> !Contributes(plan[j], k, w, msOf)
    decreases |plan|
  {
    if plan == [] then None
    else
      var prev := FirstRecordFor(plan[..|plan| - 1], k, w, msOf);
      if prev.Some? then prev
      else if Contributes(plan[|plan| - 1], k, w, msOf) then Some(|plan| - 1)
      else None
  }

  /** How many records intersect the window. */
  function IntersectingCount(plan: seq<ShiftPlan>, w: Window, msOf: string -> int): nat
    decreases |plan|
  {
    if plan == [] then 0
    else IntersectingCount(plan[..|plan| - 1], w, msOf) + (if Intersects(plan[|plan| - 1], w, msOf) then 1 else 0)
  }

  function TotalSegments(rows: seq<RowVM>): nat
    decreases |rows|
  {
    if rows == [] then 0 else TotalSegments(rows[..|rows| - 1]) + |rows[|rows| - 1].planSegs|
  }

  // ---------------------------------------------------------------------------
  // Facts about the reference definitions
  // ---------------------------------------------------------------------------

  /** A key has segments exactly when some record with that key intersects the window. */
  lemma {:induction false} SegmentsForEmpty(plan: seq<ShiftPlan>, k: string, w: Window, msOf: string -> int)
    ensures SegmentsFor(plan, k, w, msOf) == [] <==> FirstRecordFor(plan, k, w, msOf).None?
    decreases |plan|
  {
    if plan != [] {
      SegmentsForEmpty(plan[..|plan| - 1], k, w, msOf);
    }
  }

  /** Every reference segment lies in the window when the window is not inverted. */
  lemma {:induction false} SegmentsForInWindow(plan: seq<ShiftPlan>, k: string, w: Window, msOf: string -> int)
    requires w.fromMs <= w.untilMs
    ensures forall seg :: seg in SegmentsFor(plan, k, w, msOf) ==> InWindow(seg, w)
    decreases |plan|
  {
    if plan != [] {
      SegmentsForInWindow(plan[..|plan| - 1], k, w, msOf);
    }
  }

  lemma {:induction false} TotalSegmentsAppend(rows: seq<RowVM>, r: RowVM)
    ensures TotalSegments(rows + [r]) == TotalSegments(rows) + |r.planSegs|
  {
    assert (rows + [r])[..|rows|] == rows;
  }

  lemma {:induction false} TotalSegmentsUpdate(rows: seq<RowVM>, i: nat, r: RowVM)
    requires i < |rows|
    ensures TotalSegments(rows[i := r]) + |rows[i].planSegs| == TotalSegments(rows) + |r.planSegs|
    decreases |rows|
  {
    var n := |rows| - 1;
    if i < n {
      assert rows[i := r][..n] == rows[..n][i := r];
      TotalSegmentsUpdate(rows[..n], i, r);
    } else {
      assert rows[i := r][..n] == rows[..n];
    }
  }

  lemma {:induction false} TotalSegmentsSameLengths(a: seq<RowVM>, b: seq<RowVM>)
    requires |a| == |b|
    requires forall i :: 0 <= i < |a| ==> |a[i].planSegs| == |b[i].planSegs|
    ensures TotalSegments(a) == TotalSegments(b)
    decreases |a|
  {
    if a != [] {
      TotalSegmentsSameLengths(a[..|a| - 1], b[..|b| - 1]);
    }
  }

  lemma {:induction false} FindRowSameKeys(a: seq<RowVM>, b: seq<RowVM>, k: string)
    requires |a| == |b|
    requires forall j :: 0 <= j < |a| ==> RowKeyOf(a[j]) == RowKeyOf(b[j])
    ensures FindRow(a, k) == FindRow(b, k)
    decreases |a|
  {
    if a != [] {
      FindRowSameKeys(a[1..], b[1..], k);
    }
  }

  lemma {:induction false} FindRowAppend(rows: seq<RowVM>, r: RowVM, k: string)
    ensures FindRow(rows + [r], k) ==
      if FindRow(rows, k).Some? then FindRow(rows, k)
      else if RowKeyOf(r) == k then Some(|rows|)
      else None
    decreases |rows|
  {
    if rows != [] {
      assert (rows + [r])[1..] == rows[1..] + [r];
      FindRowAppend(rows[1..], r, k);
    }
  }

  /** Unfolding the three reference definitions at a record appended to the plan. */
  lemma ReferenceSnoc(prefix: seq<ShiftPlan>, p: ShiftPlan, k: string, w: Window, msOf: string -> int)
    ensures FirstRecordFor(prefix + [p], k, w, msOf) ==
      if FirstRecordFor(prefix, k, w, msOf).Some? then FirstRecordFor(prefix, k, w, msOf)
      else if Contributes(p, k, w, msOf) then Some(|prefix|)
      else None
    ensures SegmentsFor(prefix + [p], k, w, msOf) ==
      SegmentsFor(prefix, k, w, msOf) + (if Contributes(p, k, w, msOf) then [ClipToWindow(p, w, msOf)] else [])
    ensures IntersectingCount(prefix + [p], w, msOf) ==
      IntersectingCount(prefix, w, msOf) + (if Intersects(p, w, msOf) then 1 else 0)
    ensures Accumulate(prefix + [p], w, msOf) == AddRecord(Accumulate(prefix, w, msOf), p, w, msOf)
  {
    assert (prefix + [p])[..|prefix|] == prefix;
  }

  // ---------------------------------------------------------------------------
  // What the accumulating pass computes
  // ---------------------------------------------------------------------------

  ghost predicate DistinctKeys(rows: seq<RowVM>) {
    forall i, j :: 0 <= i < j < |rows| ==> RowKeyOf(rows[i]) != RowKeyOf(rows[j])
  }

  ghost predicate KeysMatch(rows: seq<RowVM>, plan: seq<ShiftPlan>, w: Window, msOf: string -> int) {
    forall k :: FindRow(rows, k).Some? <==> FirstRecordFor(plan, k, w, msOf).Some?
  }

  ghost predicate SegmentsMatch(rows: seq<RowVM>, plan: seq<ShiftPlan>, w: Window, msOf: string -> int) {
    forall i :: 0 <= i < |rows| ==> rows[i].planSegs == SegmentsFor(plan, RowKeyOf(rows[i]), w, msOf)
  }

  ghost predicate FirstRecordsMatch(rows: seq<RowVM>, plan: seq<ShiftPlan>, w: Window, msOf: string -> int) {
    forall i :: 0 <= i < |rows| ==>
      var first := FirstRecordFor(plan, RowKeyOf(rows[i]), w, msOf);
      && first.Some?
      && rows[i].employee == plan[first.value].employee
      && rows[i].store == plan[first.value].store
      && rows[i].role == plan[first.value].role
  }

  ghost predicate OrderedByFirstRecord(rows: seq<RowVM>, plan: seq<ShiftPlan>, w: Window, msOf: string -> int)
    requires FirstRecordsMatch(rows, plan, w, msOf)
  {
    forall i, j :: 0 <= i < j < |rows| ==>
      FirstRecordFor(plan, RowKeyOf(rows[i]), w, msOf).value < FirstRecordFor(plan, RowKeyOf(rows[j]), w, msOf).value
  }

  /** One record keeps the keys distinct and matched with the keys that have an intersecting record. */
  lemma KeysStep(prefix: seq<ShiftPlan>, p: ShiftPlan, w: Window, msOf: string -> int)
    requires DistinctKeys(Accumulate(prefix, w, msOf))
    requires KeysMatch(Accumulate(prefix, w, msOf), prefix, w, msOf)
    ensures DistinctKeys(Accumulate(prefix + [p], w, msOf))
    ensures KeysMatch(Accumulate(prefix + [p], w, msOf), prefix + [p], w, msOf)
  {
    var plan := prefix + [p];
    var before := Accumulate(prefix, w, msOf);
    var rows := Accumulate(plan, w, msOf);
    ReferenceSnoc(prefix, p, PlanKey(p), w, msOf);
    if Intersects(p, w, msOf) {
      var seg := ClipToWindow(p, w, msOf);
      match FindRow(before, PlanKey(p))
      case None =>
        var r := RowVM(p.employee, p.store, p.role, [seg]);
        assert rows == before + [r];
        forall k ensures FindRow(rows, k).Some? <==> FirstRecordFor(plan, k, w, msOf).Some? {
          FindRowAppend(before, r, k);
          ReferenceSnoc(prefix, p, k, w, msOf);
        }
      case Some(i) =>
        var r := before[i].(planSegs := before[i].planSegs + [seg]);
        assert rows == before[i := r];
        forall k ensures FindRow(rows, k).Some? <==> FirstRecordFor(plan, k, w, msOf).Some? {
          FindRowSameKeys(rows, before, k);
          ReferenceSnoc(prefix, p, k, w, msOf);
        }
    } else {
      forall k ensures FirstRecordFor(plan, k, w, msOf) == FirstRecordFor(prefix, k, w, msOf) {
        ReferenceSnoc(prefix, p, k, w, msOf);
      }
    }
  }

  /** The pass never creates a second row for a key, and creates one exactly for the keys that have an intersecting record. */
  lemma {:induction false} AccumulateKeys(plan: seq<ShiftPlan>, w: Window, msOf: string -> int)
    ensures DistinctKeys(Accumulate(plan, w, msOf))
    ensures KeysMatch(Accumulate(plan, w, msOf), plan, w, msOf)
    decreases |plan|
  {
    if plan != [] {
      var prefix := plan[..|plan| - 1];
      assert plan == prefix + [plan[|plan| - 1]];
      AccumulateKeys(prefix, w, msOf);
      KeysStep(prefix, plan[|plan| - 1], w, msOf);
    }
  }

  /** One record keeps every row's segments equal to its key's clipped segments. */
  lemma SegmentsStep(prefix: seq<ShiftPlan>, p: ShiftPlan, w: Window, msOf: string -> int)
    requires SegmentsMatch(Accumulate(prefix, w, msOf), prefix, w, msOf)
    requires DistinctKeys(Accumulate(prefix, w, msOf))
    requires KeysMatch(Accumulate(prefix, w, msOf), prefix, w, msOf)
    ensures SegmentsMatch(Accumulate(prefix + [p], w, msOf), prefix + [p], w, msOf)
  {
    var plan := prefix + [p];
    var before := Accumulate(prefix, w, msOf);
    var rows := Accumulate(plan, w, msOf);
    ReferenceSnoc(prefix, p, PlanKey(p), w, msOf);
    if Intersects(p, w, msOf) {
      var seg := ClipToWindow(p, w, msOf);
      match FindRow(before, PlanKey(p))
      case None =>
        var r := RowVM(p.employee, p.store, p.role, [seg]);
        assert rows == before + [r];
        SegmentsForEmpty(prefix, PlanKey(p), w, msOf);
        forall j | 0 <= j < |rows| ensures rows[j].planSegs == SegmentsFor(plan, RowKeyOf(rows[j]), w, msOf) {
          ReferenceSnoc(prefix, p, RowKeyOf(rows[j]), w, msOf);
        }
      case Some(i) =>
        var r := before[i].(planSegs := before[i].planSegs + [seg]);
        assert rows == before[i := r];
        forall j | 0 <= j < |rows| ensures rows[j].planSegs == SegmentsFor(plan, RowKeyOf(rows[j]), w, msOf) {
          ReferenceSnoc(prefix, p, RowKeyOf(rows[j]), w, msOf);
          if j != i {
            assert RowKeyOf(before[j]) != RowKeyOf(before[i]);
          }
        }
    } else {
      forall j | 0 <= j < |rows| ensures rows[j].planSegs == SegmentsFor(plan, RowKeyOf(rows[j]), w, msOf) {
        ReferenceSnoc(prefix, p, RowKeyOf(rows[j]), w, msOf);
      }
    }
  }

  /** Each row holds exactly its key's clipped segments, in input order. */
  lemma {:induction false} AccumulateSegments(plan: seq<ShiftPlan>, w: Window, msOf: string -> int)
    ensures SegmentsMatch(Accumulate(plan, w, msOf), plan, w, msOf)
    decreases |plan|
  {
    if plan != [] {
      var prefix := plan[..|plan| - 1];
      assert plan == prefix + [plan[|plan| - 1]];
      AccumulateSegments(prefix, w, msOf);
      AccumulateKeys(prefix, w, msOf);
      SegmentsStep(prefix, plan[|plan| - 1], w, msOf);
    }
  }

  /** The rows existing before a record is visited keep their first record. */
  lemma FirstRecordsStable(prefix: seq<ShiftPlan>, p: ShiftPlan, w: Window, msOf: string -> int)
    requires KeysMatch(Accumulate(prefix, w, msOf), prefix, w, msOf)
    ensures var before := Accumulate(prefix, w, msOf);
      forall j :: 0 <= j < |before| ==>
        && FirstRecordFor(prefix + [p], RowKeyOf(before[j]), w, msOf) == FirstRecordFor(prefix, RowKeyOf(before[j]), w, msOf)
        && FirstRecordFor(prefix, RowKeyOf(before[j]), w, msOf).Some?
  {
    var before := Accumulate(prefix, w, msOf);
    forall j | 0 <= j < |before|
      ensures FirstRecordFor(prefix + [p], RowKeyOf(before[j]), w, msOf) == FirstRecordFor(prefix, RowKeyOf(before[j]), w, msOf)
      ensures FirstRecordFor(prefix, RowKeyOf(before[j]), w, msOf).Some?
    {
      assert FindRow(before, RowKeyOf(before[j])).Some?;
      ReferenceSnoc(prefix, p, RowKeyOf(before[j]), w, msOf);
    }
  }

  /** A row created for a new key copies the current record, which is that key's first intersecting one. */
  lemma FirstRecordsAfterNewRow(prefix: seq<ShiftPlan>, p: ShiftPlan, w: Window, msOf: string -> int)
    requires Intersects(p, w, msOf)
    requires FindRow(Accumulate(prefix, w, msOf), PlanKey(p)).None?
    requires FirstRecordsMatch(Accumulate(prefix, w, msOf), prefix, w, msOf)
    requires KeysMatch(Accumulate(prefix, w, msOf), prefix, w, msOf)
    ensures FirstRecordsMatch(Accumulate(prefix + [p], w, msOf), prefix + [p], w, msOf)
  {
    var plan := prefix + [p];
    FirstRecordsStable(prefix, p, w, msOf);
    var before := Accumulate(prefix, w, msOf);
    var rows := Accumulate(plan, w, msOf);
    ReferenceSnoc(prefix, p, PlanKey(p), w, msOf);
    var r := RowVM(p.employee, p.store, p.role, [ClipToWindow(p, w, msOf)]);
    assert rows == before + [r];
    assert FirstRecordFor(plan, PlanKey(p), w, msOf) == Some(|prefix|);
    forall j | 0 <= j < |rows|
      ensures var first := FirstRecordFor(plan, RowKeyOf(rows[j]), w, msOf);
        first.Some? && rows[j].employee == plan[first.value].employee
        && rows[j].store == plan[first.value].store && rows[j].role == plan[first.value].role
    {
      if j < |before| {
        assert rows[j] == before[j];
      }
    }
  }

  /** Appending a segment to an existing row leaves its employee, store and role, and its key's first record. */
  lemma FirstRecordsAfterUpdate(prefix: seq<ShiftPlan>, p: ShiftPlan, w: Window, msOf: string -> int)
    requires Intersects(p, w, msOf)
    requires FindRow(Accumulate(prefix, w, msOf), PlanKey(p)).Some?
    requires FirstRecordsMatch(Accumulate(prefix, w, msOf), prefix, w, msOf)
    requires KeysMatch(Accumulate(prefix, w, msOf), prefix, w, msOf)
    ensures FirstRecordsMatch(Accumulate(prefix + [p], w, msOf), prefix + [p], w, msOf)
  {
    var plan := prefix + [p];
    FirstRecordsStable(prefix, p, w, msOf);
    var before := Accumulate(prefix, w, msOf);
    var rows := Accumulate(plan, w, msOf);
    ReferenceSnoc(prefix, p, PlanKey(p), w, msOf);
    var i := FindRow(before, PlanKey(p)).value;
    assert rows == before[i := before[i].(planSegs := before[i].planSegs + [ClipToWindow(p, w, msOf)])];
    forall j | 0 <= j < |rows|
      ensures var first := FirstRecordFor(plan, RowKeyOf(rows[j]), w, msOf);
        first.Some? && rows[j].employee == plan[first.value].employee
        && rows[j].store == plan[first.value].store && rows[j].role == plan[first.value].role
    {
      assert rows[j].employee == before[j].employee && rows[j].store == before[j].store && rows[j].role == before[j].role;
    }
  }

  /** A record that misses the window changes neither the rows nor any key's first record. */
  lemma FirstRecordsAfterMiss(prefix: seq<ShiftPlan>, p: ShiftPlan, w: Window, msOf: string -> int)
    requires !Intersects(p, w, msOf)
    requires FirstRecordsMatch(Accumulate(prefix, w, msOf), prefix, w, msOf)
    requires KeysMatch(Accumulate(prefix, w, msOf), prefix, w, msOf)
    ensures FirstRecordsMatch(Accumulate(prefix + [p], w, msOf), prefix + [p], w, msOf)
  {
    FirstRecordsStable(prefix, p, w, msOf);
    ReferenceSnoc(prefix, p, PlanKey(p), w, msOf);
    var plan := prefix + [p];
    forall j | 0 <= j < |prefix|
      ensures plan[j] == prefix[j]
    {
    }
  }

  /** One record keeps every row's employee, store and role those of its key's first intersecting record. */
  lemma FirstRecordsStep(prefix: seq<ShiftPlan>, p: ShiftPlan, w: Window, msOf: string -> int)
    requires FirstRecordsMatch(Accumulate(prefix, w, msOf), prefix, w, msOf)
    requires KeysMatch(Accumulate(prefix, w, msOf), prefix, w, msOf)
    ensures FirstRecordsMatch(Accumulate(prefix + [p], w, msOf), prefix + [p], w, msOf)
  {
    if !Intersects(p, w, msOf) {
      FirstRecordsAfterMiss(prefix, p, w, msOf);
    } else if FindRow(Accumulate(prefix, w, msOf), PlanKey(p)).None? {
      FirstRecordsAfterNewRow(prefix, p, w, msOf);
    } else {
      FirstRecordsAfterUpdate(prefix, p, w, msOf);
    }
  }

  /** Each row copies employee, store and role from its key's first intersecting record. */
  lemma {:induction false} AccumulateFirstRecords(plan: seq<ShiftPlan>, w: Window, msOf: string -> int)
    ensures FirstRecordsMatch(Accumulate(plan, w, msOf), plan, w, msOf)
    decreases |plan|
  {
    if plan != [] {
      var prefix := plan[..|plan| - 1];
      assert plan == prefix + [plan[|plan| - 1]];
      AccumulateFirstRecords(prefix, w, msOf);
      AccumulateKeys(prefix, w, msOf);
      FirstRecordsStep(prefix, plan[|plan| - 1], w, msOf);
    }
  }

  /** Creating a row for a new key puts it after every row whose key was seen earlier. */
  lemma OrderedAfterNewRow(prefix: seq<ShiftPlan>, p: ShiftPlan, w: Window, msOf: string -> int)
    requires Intersects(p, w, msOf)
    requires FindRow(Accumulate(prefix, w, msOf), PlanKey(p)).None?
    requires FirstRecordsMatch(Accumulate(prefix, w, msOf), prefix, w, msOf)
    requires OrderedByFirstRecord(Accumulate(prefix, w, msOf), prefix, w, msOf)
    requires KeysMatch(Accumulate(prefix, w, msOf), prefix, w, msOf)
    requires FirstRecordsMatch(Accumulate(prefix + [p], w, msOf), prefix + [p], w, msOf)
    ensures OrderedByFirstRecord(Accumulate(prefix + [p], w, msOf), prefix + [p], w, msOf)
  {
    var plan := prefix + [p];
    var before := Accumulate(prefix, w, msOf);
    var rows := Accumulate(plan, w, msOf);
    ReferenceSnoc(prefix, p, PlanKey(p), w, msOf);
    FirstRecordsStable(prefix, p, w, msOf);
    var r := RowVM(p.employee, p.store, p.role, [ClipToWindow(p, w, msOf)]);
    assert rows == before + [r];
    assert FirstRecordFor(plan, RowKeyOf(r), w, msOf) == Some(|prefix|);
    forall i, j | 0 <= i < j < |rows|
      ensures FirstRecordFor(plan, RowKeyOf(rows[i]), w, msOf).value < FirstRecordFor(plan, RowKeyOf(rows[j]), w, msOf).value
    {
      assert rows[i] == before[i];
      if j < |before| {
        assert rows[j] == before[j];
      }
    }
  }

  /** Appending a segment to an existing row changes neither the keys nor the first records. */
  lemma OrderedAfterUpdate(prefix: seq<ShiftPlan>, p: ShiftPlan, w: Window, msOf: string -> int)
    requires Intersects(p, w, msOf)
    requires FindRow(Accumulate(prefix, w, msOf), PlanKey(p)).Some?
    requires FirstRecordsMatch(Accumulate(prefix, w, msOf), prefix, w, msOf)
    requires OrderedByFirstRecord(Accumulate(prefix, w, msOf), prefix, w, msOf)
    requires KeysMatch(Accumulate(prefix, w, msOf), prefix, w, msOf)
    requires FirstRecordsMatch(Accumulate(prefix + [p], w, msOf), prefix + [p], w, msOf)
    ensures OrderedByFirstRecord(Accumulate(prefix + [p], w, msOf), prefix + [p], w, msOf)
  {
    var before := Accumulate(prefix, w, msOf);
    var rows := Accumulate(prefix + [p], w, msOf);
    ReferenceSnoc(prefix, p, PlanKey(p), w, msOf);
    FirstRecordsStable(prefix, p, w, msOf);
    var i := FindRow(before, PlanKey(p)).value;
    assert rows == before[i := before[i].(planSegs := before[i].planSegs + [ClipToWindow(p, w, msOf)])];
    forall a, b | 0 <= a < b < |rows|
      ensures FirstRecordFor(prefix + [p], RowKeyOf(rows[a]), w, msOf).value < FirstRecordFor(prefix + [p], RowKeyOf(rows[b]), w, msOf).value
    {
      assert RowKeyOf(rows[a]) == RowKeyOf(before[a]) && RowKeyOf(rows[b]) == RowKeyOf(before[b]);
    }
  }

  /** Rows follow the order of their keys' first intersecting records. */
  lemma {:induction false} AccumulateOrdered(plan: seq<ShiftPlan>, w: Window, msOf: string -> int)
    ensures FirstRecordsMatch(Accumulate(plan, w, msOf), plan, w, msOf)
    ensures OrderedByFirstRecord(Accumulate(plan, w, msOf), plan, w, msOf)
    decreases |plan|
  {
    AccumulateFirstRecords(plan, w, msOf);
    if plan != [] {
      var prefix := plan[..|plan| - 1];
      var p := plan[|plan| - 1];
      assert plan == prefix + [p];
      AccumulateOrdered(prefix, w, msOf);
      AccumulateKeys(prefix, w, msOf);
      var before := Accumulate(prefix, w, msOf);
      ReferenceSnoc(prefix, p, PlanKey(p), w, msOf);
      if !Intersects(p, w, msOf) {
        FirstRecordsStable(prefix, p, w, msOf);
      } else if FindRow(before, PlanKey(p)).None? {
        OrderedAfterNewRow(prefix, p, w, msOf);
      } else {
        OrderedAfterUpdate(prefix, p, w, msOf);
      }
    }
  }

  /** The pass stores one segment per intersecting record. */
  lemma {:induction false} AccumulateTotal(plan: seq<ShiftPlan>, w: Window, msOf: string -> int)
    ensures TotalSegments(Accumulate(plan, w, msOf)) == IntersectingCount(plan, w, msOf)
    decreases |plan|
  {
    if plan != [] {
      var prefix := plan[..|plan| - 1];
      var p := plan[|plan| - 1];
      assert plan == prefix + [p];
      AccumulateTotal(prefix, w, msOf);
      var before := Accumulate(prefix, w, msOf);
      ReferenceSnoc(prefix, p, PlanKey(p), w, msOf);
      if Intersects(p, w, msOf) {
        var seg := ClipToWindow(p, w, msOf);
        match FindRow(before, PlanKey(p))
        case None =>
          TotalSegmentsAppend(before, RowVM(p.employee, p.store, p.role, [seg]));
        case Some(i) =>
          TotalSegmentsUpdate(before, i, before[i].(planSegs := before[i].planSegs + [seg]));
      }
    }
  }

  // ---------------------------------------------------------------------------
  // What groupRows returns
  // ---------------------------------------------------------------------------

  /**
   * Rows are keyed by `employee__store` with no key twice, and a key has a row
   * exactly when at least one of its records intersects the window.
   */
  lemma GroupRowsKeys(plan: seq<ShiftPlan>, w: Window, msOf: string -> int, k: string)
    ensures var rows := GroupRows(plan, w, msOf);
      && (forall i, j :: 0 <= i < j < |rows| ==> RowKeyOf(rows[i]) != RowKeyOf(rows[j]))
      && ((exists i :: 0 <= i < |rows| && RowKeyOf(rows[i]) == k) <==>
            exists j :: 0 <= j < |plan| && Contributes(plan[j], k, w, msOf))
  {
    AccumulateKeys(plan, w, msOf);
    var acc := Accumulate(plan, w, msOf);
    var rows := GroupRows(plan, w, msOf);
    assert forall i :: 0 <= i < |rows| ==> RowKeyOf(rows[i]) == RowKeyOf(acc[i]);
    if FirstRecordFor(plan, k, w, msOf).Some? {
      var i := FindRow(acc, k).value;
      assert RowKeyOf(rows[i]) == k;
    }
  }

  /**
   * Each row's segments are its key's clipped segments, sorted ascending by start,
   * with equal starts in input order; the row is never empty, and when the window
   * is not inverted every segment lies inside it.
   */
  lemma GroupRowsSegments(plan: seq<ShiftPlan>, w: Window, msOf: string -> int, i: nat, t: int)
    requires i < |GroupRows(plan, w, msOf)|
    ensures var row := GroupRows(plan, w, msOf)[i];
      var appended := SegmentsFor(plan, RowKeyOf(row), w, msOf);
      && SortedByStart(row.planSegs)
      && multiset(row.planSegs) == multiset(appended)
      && WithStart(row.planSegs, t) == WithStart(appended, t)
      && |row.planSegs| >= 1
      && (w.fromMs <= w.untilMs ==> forall seg :: seg in row.planSegs ==> InWindow(seg, w))
  {
    AccumulateSegments(plan, w, msOf);
    AccumulateKeys(plan, w, msOf);
    var acc := Accumulate(plan, w, msOf);
    var row := GroupRows(plan, w, msOf)[i];
    var k := RowKeyOf(row);
    assert RowKeyOf(acc[i]) == k;
    SegmentsForEmpty(plan, k, w, msOf);
    SortByStartStable(acc[i].planSegs, t);
    if w.fromMs <= w.untilMs {
      SegmentsForInWindow(plan, k, w, msOf);
      forall seg | seg in row.planSegs ensures InWindow(seg, w) {
        SortByStartSameMembers(acc[i].planSegs, seg);
      }
    }
  }

  /**
   * Each row takes employee, store and role from the first intersecting record
   * with its key (later roles are ignored), and rows come out in the order of
   * those first records.
   */
  lemma GroupRowsFirstRecord(plan: seq<ShiftPlan>, w: Window, msOf: string -> int)
    ensures var rows := GroupRows(plan, w, msOf);
      && (forall i :: 0 <= i < |rows| ==>
            var first := FirstRecordFor(plan, RowKeyOf(rows[i]), w, msOf);
            && first.Some?
            && rows[i].employee == plan[first.value].employee
            && rows[i].store == plan[first.value].store
            && rows[i].role == plan[first.value].role)
      && (forall i, j :: 0 <= i < j < |rows| ==>
            FirstRecordFor(plan, RowKeyOf(rows[i]), w, msOf).value < FirstRecordFor(plan, RowKeyOf(rows[j]), w, msOf).value)
  {
    AccumulateOrdered(plan, w, msOf);
    var acc := Accumulate(plan, w, msOf);
    var rows := GroupRows(plan, w, msOf);
    assert forall i :: 0 <= i < |rows| ==> RowKeyOf(rows[i]) == RowKeyOf(acc[i]) && rows[i].role == acc[i].role;
  }

  /** Every intersecting record yields exactly one segment, and nothing else does. */
  lemma GroupRowsTotal(plan: seq<ShiftPlan>, w: Window, msOf: string -> int)
    ensures TotalSegments(GroupRows(plan, w, msOf)) == IntersectingCount(plan, w, msOf)
  {
    AccumulateTotal(plan, w, msOf);
    TotalSegmentsSameLengths(GroupRows(plan, w, msOf), Accumulate(plan, w, msOf));
  }

  /** A record that misses the window changes nothing: no segment and no row come from it. */
  lemma GroupRowsSkipsMiss(plan: seq<ShiftPlan>, p: ShiftPlan, w: Window, msOf: string -> int)
    requires msOf(p.endPlanned) < w.fromMs || msOf(p.startPlanned) > w.untilMs
    ensures GroupRows(plan + [p], w, msOf) == GroupRows(plan, w, msOf)
  {
    assert (plan + [p])[..|plan|] == plan;
  }
}
