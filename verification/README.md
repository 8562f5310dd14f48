# GIT — Grid Index for Trajectories, modelled in Dafny

The GIT index lays a fixed, uniform grid of `nx × ny` cells over a
rectangular spatial frame. Each cell keeps an interval store of entries
`(t_start, t_end, traj_id)`. A trajectory is an id plus time-ordered
(timestamp, point) samples.

- **Inserting** a trajectory walks its consecutive sample pairs. For each pair it
  puts the entry `(t_i, t_i+1, id)` into every cell whose closed rectangle
  meets the pair's footprint, which is the union of the two endpoints.
- **Deleting** an id removes every entry carrying it from every cell.
- **The spatial window query** reports the ids in the cells meeting a query box,
  whatever their times.
- **The temporal window query** reports the ids in any cell whose interval overlaps
  the time window.
- **The spatiotemporal query** intersects those two answers.

The model is functional:

- The grid is an immutable `seq<seq<set<Entry>>>` over an integer frame.
- Each operation is a pure function whose contract characterises its result
  in terms of the inputs.
- The lemmas relate the operations to each other: insert/delete symmetry,
  idempotence, monotonicity of the queries, and what a query can and cannot
  see after an insertion.

Modules, in dependency order:

- `Geometry` (geometry.dfy): points, closed rectangles, the normalised query box,
  and the two shapes cells are resolved against (a multipoint or a rectangle).
- `IntervalStore` (interval_store.dfy): the per-cell store as a set of entries,
  the half-open `Overlaps` test, slicing, and removal by id.
- `Trajectories` (trajectories.dfy): samples, segments, and the footprint and entry
  of a segment.
- `GridIndex` (grid_index.dfy): the frame, the constructor, cell resolution,
  `Insert` and `Delete`.
- `WindowQueries` (window_queries.dfy): the three window queries.
- `IndexProperties` (index_properties.dfy): lemmas spanning several operations,
  plus worked scenarios on a 100 × 100 frame with 10 × 10 cells.

These choices follow from what the code and its libraries do:

- **Temporal overlap is half-open**: `s < t2 && e > t1`, and nothing when
  `t1 >= t2`. The interval library's slice `tree[t1:t2]` computes exactly this
  set. An entry that starts at `t2`, or ends at `t1`, is not reported.
  `IntervalStore.Overlaps` states the test once.
- **Cells are closed rectangles.** The planar `intersects` test counts boundary
  contact, so a point on an edge shared by two cells lies in both, and a
  query box touching a cell's edge visits that cell.
- **A cell store is a set.** The interval library ignores the insertion of a
  triple it already holds, so inserting the same segment entry twice leaves
  one copy.
- **The constructor** validates nothing. `xmax > xmin`, `ymax > ymin`, `dx > 0`
  and `dy > 0` are preconditions.
- **Rounding.** Because `nx` and `ny` are rounded up, the last column and row may
  reach past `xmax` and `ymax`. `IndexProperties.Extent` is the area the cells
  really cover.

## Model

| member | source | states |
|---|---|---|
| GridIndex.CeilDiv | GIT.py:31-32 | the result q is the ceiling of a / b: (q - 1) * b < a <= q * b |
| GridIndex.New | GIT.py:24-33 | a valid grid over the given frame whose nx and ny are the rounded-up cell counts, so the columns cover the frame's width and none lies wholly beyond it (likewise the rows); every one of the nx × ny cells is empty |
| GridIndex.ResolveCells | GIT.py:35-48 | a cell is listed exactly when it is in range and its closed rectangle intersects the shape; cells are listed in column-then-row scan order, each at most once |
| GridIndex.AddSegment | GIT.py:57-64 | one loop iteration: every cell gains segment k's entry exactly when it holds one of the segment's endpoints; nothing else changes and the frame and dimensions are kept |
| GridIndex.InsertSegments | GIT.py:56-64 | after the first n segments, each cell holds its old entries plus the entry of each of those segments with an endpoint in the cell, and nothing more |
| GridIndex.Insert | GIT.py:51-64 | after insert(T), each cell holds its old entries plus exactly the entries (t_k, t_k+1, id) of the segments of T with an endpoint in the cell; frame and dimensions unchanged |
| GridIndex.Delete | GIT.py:66-75 | after delete(id), an entry is in a cell exactly when it was there before and carries a different id; frame and dimensions unchanged |
| Geometry.Box | GIT.py:86 | the query rectangle holds all four corners spanned by (x1, y1) and (x2, y2), given in any order, and lies within every rectangle holding both given corners |
| Geometry.Footprint | GIT.py:60 | the union of a segment's two endpoints meets a cell exactly when the cell contains one of the endpoints, so the cells crossed between them are not met |
| Geometry.IntersectIffCommonPoint | GIT.py:46 | two closed rectangles intersect exactly when they share a point, boundary contact included |
| IntervalStore.OverlapsAsPointOrStart | GIT.py:108 | for a non-empty interval, the half-open overlap test agrees with the slice's answer as the union of the entries holding t1 and the entries starting inside [t1, t2) |
| IntervalStore.Slice | GIT.py:108 | the slice keeps exactly the stored entries that overlap [t1, t2), and is empty when t1 >= t2 |
| IntervalStore.RemoveId | GIT.py:73-75 | removing an id leaves a sub-store that no longer mentions the id and keeps every entry with another id |
| IntervalStore.RemoveIdIdempotent | GIT.py:73-75 | removing an id twice is the same as removing it once |
| IntervalStore.RemoveAbsentId | GIT.py:73-75 | removing an id the store does not mention leaves the store unchanged |
| WindowQueries.Select | GIT.py:94-110 | the entries a cell contributes: all of them for the spatial query, those overlapping the window for the temporal query |
| WindowQueries.IdsAt | GIT.py:89-95 | an id is in the union over the listed cells exactly when one of those cells holds an admitted entry carrying it |
| WindowQueries.CellsFrom | GIT.py:106-107 | the temporal scan visits every cell of the grid and no other |
| WindowQueries.RegionIds | GIT.py:89-95 | the ids collected from the cells a rectangle meets are exactly the ids of entries stored in such a cell |
| WindowQueries.SpatialWindowQuery | GIT.py:77-96 | an id is reported exactly when some in-range cell whose closed rectangle meets the normalised query box holds an entry for it, whatever its times |
| WindowQueries.TemporalWindowQuery | GIT.py:98-111 | an id is reported exactly when some cell holds an entry for it whose interval overlaps the window [t1, t2) |
| WindowQueries.SpatiotemporalWindowQuery | GIT.py:113-126 | the answer is contained in both single-dimension answers and holds an id exactly when the spatial condition and the temporal condition each hold, possibly through different entries |
| IndexProperties.CellWithinExtent | GIT.py:44-45 | every cell rectangle lies within the covered area |
| IndexProperties.PointsOutsideResolveNothing | GIT.py:41-48 | points lying outside the covered area resolve to no cell |
| IndexProperties.FramePointHasCell | GIT.py:31-47 | with the constructor's cell counts, every point of the frame, its far edges included, resolves to at least one cell |
| IndexProperties.SharedEdgeResolvesToBoth | GIT.py:44-46 | a point on the edge between two horizontally adjacent cells resolves to both |
| IndexProperties.ShortTrajectoryInsertsNothing | GIT.py:56 | inserting a trajectory with fewer than two samples returns the grid unchanged |
| IndexProperties.ResolvedIffTouches | GIT.py:60 | a cell is resolved from a segment's footprint exactly when it contains one of the segment's endpoints |
| IndexProperties.InsertRecordsSegment | GIT.py:56-64 | after insert, each segment's entry is in every cell its footprint resolves to |
| IndexProperties.InsertLeavesUnresolvedCell | GIT.py:62-64 | a cell that no segment's footprint resolves to keeps its store |
| IndexProperties.InsertAddsOnlyItsId | GIT.py:64 | every entry that insert adds carries the trajectory's id |
| IndexProperties.DeleteLeavesNoResidue | GIT.py:66-75 | after delete(id), no cell holds the id and neither the spatial nor the temporal query reports it |
| IndexProperties.DeleteAbsentIsNoop | GIT.py:71-75 | deleting an id that no cell holds returns the grid unchanged |
| IndexProperties.DeleteIdempotent | GIT.py:71-75 | deleting the same id twice is the same as deleting it once |
| IndexProperties.InsertThenDeleteRestores | GIT.py:51-75 | if no cell held T's id, deleting it after inserting T gives back the original grid |
| IndexProperties.SpatialQueryMonotone | GIT.py:86-96 | enlarging the query box never removes an id from the spatial answer |
| IndexProperties.TemporalQueryMonotone | GIT.py:105-111 | widening the time window never removes an id from the temporal answer |
| IndexProperties.EmptyTimeWindow | GIT.py:108 | a time window with t1 >= t2 gives an empty temporal answer and an empty spatiotemporal answer |
| IndexProperties.InsertedIsFound | GIT.py:51-111 | after insert(T), a segment with an endpoint in a cell makes T visible to every query box meeting that cell and to every time window the segment overlaps |
| IndexProperties.InsertedIsMissedAway | GIT.py:51-96 | if the grid held nothing for T and no cell meeting the box contains an endpoint of T, the spatial query does not report T after insertion |
| IndexProperties.EndpointInWindowIsFound | GIT.py:51-96 | after insert(T), a segment endpoint inside the covered area and the query box makes the spatial query report T |
| IndexProperties.SegmentInWindowIsFound | GIT.py:98-111 | after insert(T), a segment starting inside the covered area and overlapping the window makes the temporal query report T |
| IndexProperties.FarSamplesAreMissed | GIT.py:86-96 | if the grid held nothing for T and every sample lies more than one cell width beyond the query box, the spatial query does not report T after insertion |
| IndexProperties.NewIsTheFreshGrid | GIT.py:24-33 | the constructor builds an empty grid with the rounded-up dimensions, and it is the only such grid over its frame |
| IndexProperties.EmptyHoldsNothing | GIT.py:33 | a grid with all cells empty holds no trajectory |
| IndexProperties.Fresh100 | GIT.py:31-33 | the constructor over [0, 100] × [0, 100] with 10 × 10 cells builds 10 × 10 empty cells |
| IndexProperties.TwoSampleScenario | GIT.py:51-111 | a trajectory from (0, 5) at time 0 to (50, 5) at time 10 is found by the box (0, 0)-(10, 10) and by the window [5, 15), but not by the box (90, 90)-(100, 100) |
| IndexProperties.CrossedCellNotRecorded | GIT.py:56-64 | a segment from (5, 5) to (45, 5) is missed by a box inside cell (2, 0), which it crosses, but found by a box around its start |
| IndexProperties.SpatiotemporalOverApproximates | GIT.py:113-126 | the combined query for box (0, 0)-(4, 4) and window [15, 20) reports a trajectory that is in the box at time 0, although both samples bounding its segment inside the window lie outside the box |
| Trajectories.Trajectory.StepsIncreasing | GIT.py:56-59 | samples each strictly later than the one before have strictly increasing timestamps throughout, the condition insertion places on its segments |
| Trajectories.Trajectory.SegmentCount | GIT.py:56 | segment k exists exactly when sample k has a successor, which fixes the number of segments the insertion loop enumerates |
| Trajectories.Trajectory.EntriesIn | GIT.py:60-64 | what segment k leaves in one cell: its entry exactly when the cell's closed rectangle contains one of the segment's endpoints, and nothing else |
| Trajectories.Trajectory.SegmentEntry | GIT.py:57-64 | segment k's entry runs from sample k's timestamp to sample k + 1's and carries the trajectory's id; for increasing timestamps it is a non-null interval, as the interval library demands |
| GridIndex.ColumnCells | GIT.py:43-47 | the j-loop over one column: lists, in increasing row order, exactly the cells of rows j..ny-1 of column i whose closed rectangle intersects the shape |
| GridIndex.ColumnsFrom | GIT.py:42-47 | the i-loop: lists, in scan order, exactly the cells of columns i..nx-1 whose closed rectangle intersects the shape |
| GridIndex.AddToCells | GIT.py:62-64 | the inner loop: every listed cell gains the entry, every other cell keeps its store, and the grid keeps its shape |

## Left out

- Floating-point coordinates, Shapely geometry and `np.ceil` over floats. The model
  uses integer points, closed integer rectangles and integer ceiling division
  instead. Timestamps are integers, not pandas datetimes.
- The interval library's internals: balancing, logarithmic lookup, and how `remove`
  rebuilds the tree. A cell is the set of its triples, and a slice is the overlap
  test applied to that set.
- The interval library rejects a null interval (`t_start >= t_end`) with an
  error. The model does not include that error path: strictly increasing
  timestamps are a precondition of `GridIndex.Insert`. The caller's sort by
  timestamp in testGIT.py orders the samples, but it does not rule out two
  samples with equal timestamps.
- GridIndex.Insert: a trajectory whose timestamps do not strictly increase is
  excluded by the precondition. On such a trajectory the source raises at the
  first null segment that resolves to some cell, after adding the earlier
  segments' entries. A null segment whose endpoints both lie outside the cells'
  area resolves to no cell, so the source skips it without error.
- GridIndex.New: frames with `xmax <= xmin`, `ymax <= ymin` or a non-positive
  cell size are excluded by the precondition. The source accepts them. When an
  extent and its cell size have opposite signs, or the extent is zero, the rounded
  count is zero or negative, so the grid has no cells. Then every operation does
  nothing and every query answers the empty set. When both are negative, the count
  is positive and the cells run from `xmin` (or `ymin`) downwards. A cell size of
  zero makes the division raise an error.
- Dataset loading, WKT parsing, random window generation, timing and printing in
  testGIT.py and Util.py. These are I/O and demonstration code, and the index
  does not depend on them.
- `Trajectory.__str__`. It is display only.
- Performance: the index scans all nx × ny cells for every resolution and every
  query, and its complexity is not modelled.
- Persistence and concurrency. The index has neither.
