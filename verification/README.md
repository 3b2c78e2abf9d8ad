# Schedule timeline layout model

A Dafny model of the layout and deviation engine of the staff-schedule
timeline. The system shows one row per (employee, store) pair with planned
shifts as bars on a time track, recorded attendance ("facts") as bars above
them, and three kinds of deviation markers: late start, early leave and
absence. The model covers:

- **Row grouping** (`PlanRows`, `SegmentSort`). Plan records that miss the
  visible window are dropped and the rest are clipped into it. Each record
  is appended to the row for its key `employee__store`, and a row is created
  from the first record with that key (its role wins). Rows keep
  first-seen order, as a JavaScript `Map` does. Each row's segments are then
  stably sorted by start.
- **The fact index** (`FactIndex`). One pass appends every fact's raw
  interval under its key. Nothing is merged, clipped or windowed.
- **Bar size classes and minimum widths** (`BarSize`, `LegacySizeClass`).
  These are the 44/72/112 px tiers and the plan/fact minimum-width table. The
  older string-valued copy is proved to agree with the enum version.
- **Grid metrics** (`TimelineGrid`). These are the column count,
  column width, pixel scale, track width, full grid width and the local
  midnights inside the window.
- **The per-segment layout of a row** (`RowLayout`). For each plan segment
  there is a plan bar, then one fact bar per overlapping fact with its late
  and early caps, then an absence ring or dot. All of this is a pure
  function that returns element descriptors with their `left` and `width`.
- **The timeline container** (`Timeline`). This covers the rounded column
  width used as `--colw`, the tick timestamps, and the wiring that hands
  each row the facts stored under its key.

Timestamps in the records stay ISO strings. Parsing is the abstract parameter
`msOf: string -> int`. Pixel quantities are exact `real`s. `Math.floor` is
`.Floor` and `Math.round(x)` is `(x + 0.5).Floor`.

Two points about the source that the lemmas make explicit:

- **Overlap at the boundary.** The overlap test in
  `src/widgets/schedule/ui/Row.tsx:152` is
  `!(f.e < seg.s || f.s > seg.e)`, a closed-interval test. A fact that ends
  exactly where a plan segment starts therefore counts as overlapping, and so
  does one that starts exactly where it ends. Such a fact gets a fact bar
  clamped to a single instant, and it suppresses the absence marker
  (`RowLayout.TouchingEndpointsOverlap`).
- **Row key collisions.** The row key is the plain concatenation
  `employee + "__" + store`. Keeping `__` out of names is not enough for
  distinct pairs to get distinct keys: `("a_", "b")` and `("a", "_b")` both
  give `"a___b"` (`ShiftModel.RowKeyCollision`). Keys are injective when the
  employee name contains no `__` and does not end in `_`
  (`ShiftModel.RowKeyInjective`). The lemmas that relate a row to its own
  facts assume that condition.

## Model

| member | source | states |
|---|---|---|
| ShiftModel.RowKeyInjective | src/entities/shift/lib/groupRows.ts:109 | For employee names without `__` and without a trailing `_`, two keys are equal exactly when employee and store are both equal |
| ShiftModel.RowKeyCollision | src/entities/shift/lib/buildFactIndex.ts:78 | Two different pairs, neither name containing `__`, can still share one key |
| ShiftModel.FactKeyIgnoresRole | src/entities/shift/lib/buildFactIndex.ts:78 | A fact's key is `employee + "__" + store`, and changing its role does not change it |
| ShiftModel.DefaultShowsEverything | src/entities/shift/model/deviation.ts:9-19 | Every deviation kind is in the list of all kinds and is switched on by default |
| PlanRows.Clamp | src/entities/shift/lib/groupRows.ts:27 | With `a <= b` the result lies in `[a, b]`. It is `n` itself inside the range, `a` below it and `b` above it. An inverted range yields `a` |
| PlanRows.ClampMonotone | src/entities/shift/lib/groupRows.ts:27 | Clamping never reverses the order of two values |
| PlanRows.ClipToWindow | src/entities/shift/lib/groupRows.ts:115-118 | A clipped segment lies in the window when the window is not inverted, keeps `s <= e` when the record had it, and is the record's own interval when that already lay inside |
| PlanRows.FindRow | src/entities/shift/lib/groupRows.ts:110 | Finds a row index carrying the key when one exists; returns none exactly when no row has it |
| PlanRows.FirstRecordFor | src/entities/shift/lib/groupRows.ts:110-111 | The returned record is the earliest intersecting record with the key; none means no record with the key intersects |
| PlanRows.GroupRowsKeys | src/entities/shift/lib/groupRows.ts:102-126 | No key has two rows. A key has a row exactly when some record with that key intersects the window |
| PlanRows.GroupRowsSegments | src/entities/shift/lib/groupRows.ts:107-125 | A row's segments are exactly its key's clipped intersecting records, as a multiset. They are sorted by start, with equal starts in input order. A row is never empty, and with a proper window every segment lies inside it |
| PlanRows.GroupRowsFirstRecord | src/entities/shift/lib/groupRows.ts:110-112 | Each row takes employee, store and role from the first intersecting record with its key. Rows come out in the order of those first records |
| PlanRows.GroupRowsTotal | src/entities/shift/lib/groupRows.ts:102-119 | Each intersecting record yields exactly one segment across all rows, and no other record yields one |
| PlanRows.GroupRowsSkipsMiss | src/entities/shift/lib/groupRows.ts:107 | A record ending before the window or starting after it leaves the result unchanged |
| SegmentSort.SortByStart | src/entities/shift/lib/groupRows.ts:125 | The result is sorted ascending by start and is a permutation of the input |
| SegmentSort.SortByStartStable | src/entities/shift/lib/groupRows.ts:125 | Segments with equal starts keep their relative input order |
| SegmentSort.SortByStartSameMembers | src/entities/shift/lib/groupRows.ts:125 | A segment occurs in the sorted row exactly when it occurs in the unsorted one |
| SegmentSort.SortByStartSortedIdentity | src/entities/shift/lib/groupRows.ts:125 | An already sorted row comes back unchanged |
| FactIndex.BuildFactIndex | src/entities/shift/lib/buildFactIndex.ts:75-83 | The index holds exactly the keys of the facts. Each key maps to a non-empty list: that key's raw intervals in input order |
| FactIndex.LookupIsIntervalsFor | src/entities/shift/lib/buildFactIndex.ts:77-80 | A lookup with the empty-list fallback yields the key's intervals in input order, and nothing for a key no fact has |
| FactIndex.IntervalsForOrigin | src/entities/shift/lib/buildFactIndex.ts:78-80 | Every interval stored under a key is the unmodified interval of a fact with that key |
| FactIndex.IntervalsForComplete | src/entities/shift/lib/buildFactIndex.ts:78-80 | Every fact's interval is stored under its own key |
| FactIndex.IntervalsForAbsent | src/entities/shift/lib/buildFactIndex.ts:79 | A key that no fact carries has no intervals |
| FactIndex.FactIndexTotal | src/entities/shift/lib/buildFactIndex.ts:77-81 | The lists together hold exactly as many intervals as there are facts |
| BarSize.GetBarSizeClass | src/shared/ui/timeline/size.ts:16-21 | Widths below 44 are tiny, 44 to 72 ultra, 72 to 112 compact, and 112 and up default. Each holds in both directions |
| BarSize.SizeClassMonotone | src/shared/ui/timeline/size.ts:16-21 | A wider bar never gets a lower tier |
| BarSize.CssNameInjective | src/shared/ui/timeline/size.ts:3-8 | The four enum string values are pairwise distinct |
| BarSize.MinBarWidthTable | src/shared/ui/timeline/size.ts:23-33 | Plan bars get 10 px on mobile and 6 px on desktop; fact bars get 8 and 4. The mobile floor is never the smaller one |
| LegacySizeClass.GetBarSizeClass | src/shared/ui/DateRangePicker/sizeClass.ts:19-24 | The string classifier returns one of its four values, each exactly on its width band |
| LegacySizeClass.LegacyClassAgrees | src/shared/ui/DateRangePicker/sizeClass.ts:19-24 | For every width the string classifier returns the enum classifier's string value |
| LegacySizeClass.LegacyMinWidthAgrees | src/shared/ui/DateRangePicker/sizeClass.ts:7-17 | The older minimum-width table equals the current one for both kinds and both layouts |
| TimelineGrid.TotalMs | src/widgets/schedule/lib/useTimelineGrid.ts:25 | The window length is at least 1 ms, and it is the true length when that is positive |
| TimelineGrid.ColumnCount | src/widgets/schedule/lib/useTimelineGrid.ts:26 | The fewest columns that cover the window: they cover it, one fewer would not, and there is at least one |
| TimelineGrid.AvailableWidth | src/widgets/schedule/lib/useTimelineGrid.ts:27 | The space beside the label column, never negative, and zero when the container is no wider than the labels |
| TimelineGrid.LeftColWidth | src/widgets/schedule/lib/useTimelineGrid.ts:23 | The label column is the width the caller passed, or 280 px when none is passed |
| TimelineGrid.ColumnWidth | src/widgets/schedule/lib/useTimelineGrid.ts:29-32 | A whole number of pixels between the minimum column (56 mobile, 72 desktop) and 140 |
| TimelineGrid.ColumnWidthFits | src/widgets/schedule/lib/useTimelineGrid.ts:29-32 | The columns fit the available width when it admits the minimum column. The minimum is used when it does not, and 140 when there is room for 140. Below 140 the width is the widest that fits: one more pixel per column would overflow |
| TimelineGrid.PxPerMs | src/widgets/schedule/lib/useTimelineGrid.ts:33 | The scale is positive and maps one column's duration to one column's width |
| TimelineGrid.CollectDaySplits | src/widgets/schedule/lib/useTimelineGrid.ts:39-44 | The splits are the walk from the first midnight after the start in calendar-day steps, stopping before the end. They are strictly increasing and strictly inside the window |
| TimelineGrid.GridShape | src/widgets/schedule/lib/useTimelineGrid.ts:23-36 | Enough columns to cover the window and no more. The column width is within the limits, and is the minimum when the container leaves no room beside the label column |
| TimelineGrid.GridShapeScale | src/widgets/schedule/lib/useTimelineGrid.ts:33-35 | At the grid's scale one column's duration spans exactly one column's width. The track is the columns side by side |
| TimelineGrid.GridShapeCoversWindow | src/widgets/schedule/lib/useTimelineGrid.ts:26-35 | The track is at least as wide as the whole window at the grid's scale |
| TimelineGrid.GridShapeFitsContainer | src/widgets/schedule/lib/useTimelineGrid.ts:27-36 | The full grid is the label column plus the track. It fits the container whenever the container admits the minimum columns, and then, unless the columns are 140 px, one more pixel per column would overflow it |
| TimelineGrid.ComputeGrid | src/widgets/schedule/lib/useTimelineGrid.ts:23-47 | The grid shape plus the day splits. The splits are the midnight walk, strictly increasing and strictly inside the window |
| RowLayout.WithDefaultThreshold | src/widgets/schedule/ui/Row.tsx:103 | A row given no caps threshold uses 8 px |
| RowLayout.BarWidth | src/widgets/schedule/ui/Row.tsx:147 | A bar is never narrower than its kind's floor or its duration in pixels, and is exactly one of the two |
| RowLayout.TouchingEndpointsOverlap | src/widgets/schedule/ui/Row.tsx:152 | The overlap test is closed-interval intersection, so a fact that ends at the segment start or starts at its end passes |
| RowLayout.Touching | src/widgets/schedule/ui/Row.tsx:151-152 | A fact is kept exactly when it is in the row's facts and passes the overlap test |
| RowLayout.TouchingAppend | src/widgets/schedule/ui/Row.tsx:151-152 | Filtering distributes over concatenation, so kept facts stay in fact order |
| RowLayout.ClipTo | src/widgets/schedule/ui/Row.tsx:153 | A clamped fact lies inside a well-formed segment, keeps its order of endpoints, and keeps each endpoint already inside |
| RowLayout.OverlapsAreClippedTouching | src/widgets/schedule/ui/Row.tsx:151-153 | The `k`-th overlap is the `k`-th fact passing the test, clamped into the segment |
| RowLayout.OverlapsEmpty | src/widgets/schedule/ui/Row.tsx:151-155 | There is no overlap exactly when no fact of the row passes the overlap test |
| RowLayout.OverlapsInSegment | src/widgets/schedule/ui/Row.tsx:153 | For a well-formed segment every overlap lies inside it |
| RowLayout.LateMs | src/widgets/schedule/ui/Row.tsx:177 | The late amount is never negative and is positive exactly when the overlap starts after the segment |
| RowLayout.EarlyMs | src/widgets/schedule/ui/Row.tsx:178 | The early amount is never negative and is positive exactly when the overlap ends before the segment |
| RowLayout.LateEarlyWithinSegment | src/widgets/schedule/ui/Row.tsx:177-178 | For an overlap of a well-formed segment the amounts are the gaps to the segment's ends. Neither exceeds the segment length |
| RowLayout.LateEarlyOfRawFact | src/widgets/schedule/ui/Row.tsx:151-178 | A touching fact is late exactly when its raw start is after the segment start, and early exactly when its raw end is before the segment end |
| RowLayout.AbsenceMarker | src/widgets/schedule/ui/Row.tsx:230-239 | A single marker: a ring over the bar with a chip centred on it when the bar is at least 64 px wide, otherwise a dot 8 px inside its right end |
| RowLayout.SegmentLayout | src/widgets/schedule/ui/Row.tsx:146-148 | The first element is the plan bar at the segment start. Its width is the segment's plan bar width, so at least the plan floor and the duration in pixels, and its tier is its width's class |
| RowLayout.FactBlockBar | src/widgets/schedule/ui/Row.tsx:173-175 | One overlap yields exactly one fact bar, at the overlap start with the fact width and tier, and no absence marker |
| RowLayout.FactBlockLateCap | src/widgets/schedule/ui/Row.tsx:199-208 | An overlap has a late cap exactly when caps are shown, Late is on and it starts late. The cap starts at the plan bar and is as wide as the lateness in pixels, which is the gap from the plan bar's start to the overlap's start, or 2 px when that is less |
| RowLayout.FactBlockEarlyCap | src/widgets/schedule/ui/Row.tsx:211-220 | An overlap has an early cap exactly when caps are shown, Early is on and it ends early. The cap starts at the overlap's end and is as wide as the early leave in pixels, which is the gap from the overlap's end to the segment's end, or 2 px when that is less |
| RowLayout.FactBlocksMember | src/widgets/schedule/ui/Row.tsx:172-225 | An element belongs to the fact layer exactly when it belongs to the block of some overlap |
| RowLayout.FactBlocksBars | src/widgets/schedule/ui/Row.tsx:172-175 | The fact layer holds one fact bar per overlap, in overlap order |
| RowLayout.SegmentLayoutHidesFacts | src/widgets/schedule/ui/Row.tsx:171 | With facts hidden, a segment is its plan bar alone: no fact bars, caps or absence markers |
| RowLayout.SegmentLayoutFactBars | src/widgets/schedule/ui/Row.tsx:171-175 | With facts shown, the segment's fact bars are the overlaps' bars in order. Each starts at its overlap's start, has its overlap's fact bar width (so at least the fact floor) and that width's tier |
| RowLayout.SegmentLayoutLateCap | src/widgets/schedule/ui/Row.tsx:199-208 | A segment has a late cap exactly when facts are shown, Late is on, the plan bar is at least 44 px (not tiny), and some late overlap has a fact bar reaching the threshold |
| RowLayout.SegmentLayoutLateCapPlacement | src/widgets/schedule/ui/Row.tsx:205 | Every late cap starts at the plan bar's left edge. Its width is the lateness in pixels of some overlap that starts after the segment, or 2 px when that is less |
| RowLayout.SegmentLayoutEarlyCap | src/widgets/schedule/ui/Row.tsx:199-220 | A segment has an early cap exactly when facts are shown, Early is on, the plan bar is not tiny, and some early overlap has a fact bar reaching the threshold |
| RowLayout.SegmentLayoutEarlyCapPlacement | src/widgets/schedule/ui/Row.tsx:214-216 | Every early cap belongs to some overlap that ends before the segment: it starts at that overlap's end and is as wide as its early leave in pixels, or 2 px when that is less |
| RowLayout.SegmentLayoutAbsence | src/widgets/schedule/ui/Row.tsx:228-239 | A segment has an absence marker exactly when facts are shown, Absence is on and no fact passes the overlap test. The marker is the ring exactly when the plan bar is also at least 64 px |
| RowLayout.RowLayout | src/widgets/schedule/ui/Row.tsx:144 | One element list per plan segment, in segment order, each opening with that segment's plan bar |
| Timeline.ColW | src/widgets/schedule/ui/Timeline.tsx:28 | The rounded per-column share of the track is within half a pixel. A column count below one divides by one |
| Timeline.ColWOfGrid | src/widgets/schedule/ui/Timeline.tsx:28 | For the grid's own track the rounded share is exactly the grid's column width |
| Timeline.TicksSpacing | src/widgets/schedule/ui/Timeline.tsx:35-36 | The first tick is the window start and consecutive ticks are one column duration apart |
| Timeline.TicksCoverWindow | src/widgets/schedule/ui/Timeline.tsx:35-36 | With the grid's column count the last tick falls at or after the window end |
| Timeline.WireRows | src/widgets/schedule/ui/Timeline.tsx:46-58 | Each row gets its key, the facts stored under the key or none, and is first exactly at index 0 |
| Timeline.WireRowsFromIndex | src/widgets/schedule/ui/Timeline.tsx:47-48 | Over the built index a row receives exactly its key's intervals in input order |
| Timeline.WireRowsSamePair | src/widgets/schedule/ui/Timeline.tsx:47-48 | With unambiguous names, a row receives an interval exactly when a fact of its own employee and store has it |
| Timeline.TimelineLayout | src/widgets/schedule/ui/Timeline.tsx:46-62 | One layout per row. Each row is laid out with the container's window start, scale, layout flag and filters, the default caps threshold, and the facts stored under its key or none |
| Timeline.TimelineAbsence | src/widgets/schedule/ui/Timeline.tsx:46-62 | End to end, a row's segment is marked absent exactly when facts and Absence are on and no fact of the row's key passes the overlap test against it |
| Timeline.TimelineLateCap | src/widgets/schedule/ui/Row.tsx:103 | End to end, a row's segment has a late cap exactly when facts and Late are on, its plan bar is not tiny, and some overlap of the row's facts starts after it with a fact bar of at least 8 px |

## Left out

- Timestamp parsing (`msOf`, dayjs): an abstract function parameter. Unparsable input (`NaN`) is not modelled, because `int` has no NaN.
- Floating point: pixel arithmetic is exact `real` arithmetic. The IEEE rounding of `/`, `*`, `Math.floor` and `Math.round` is not modelled.
- TimelineGrid.ColumnCount: `Math.ceil(totalMs / (COL_HOURS * HOUR_MS))` is modelled as exact integer ceiling division, not as a ceiling of a rounded float quotient.
- `COL_HOURS` and `HOUR_MS`: the time-scale module is not part of this model, so they are the positive parameters of `TimelineGrid.TimeScale`.
- Calendar arithmetic (`startOf("day")`, `add(1, "day")`, time zones, daylight saving): the two abstract functions of `TimelineGrid.Calendar`. They are assumed only to move forward in time.
- TimelineGrid.ColumnWidth: the `cols ? … : 100` fallback is modelled, but `cols` is never zero there, so it has no consequence.
- TimelineGrid.GridShape: returns an empty day-split list. `TimelineGrid.ComputeGrid` adds the splits, because their loop is a method.
- Memoisation (`useMemo`, `React.memo`), keys and fragments of the rendered tree: these have no effect on the computed values.
- Text content: tooltips, badges, `fmt` clock labels, tick labels, the `Math.round(ms / 60000)` minute counts in cap titles, and the `top: 42` offset of fact bars. These are presentation only.
- Row.tsx lines 106-141: the label cell, the track width style, the grid-line cells and the day-split lines and labels. These are drawn from values the grid model already computes.
- PlanRows.GroupRows: its own contract states only the row count. What the rows hold is stated by the `GroupRows*` lemmas.
- `DEVIATION_LABEL`, the schedule page, the filter controls, persisted checkboxes, theme, resize observer and initial-range helpers: UI plumbing outside the layout engine.
- `ShiftPlan.role` beyond grouping and `ShiftFact.role`: the layout never reads them.
