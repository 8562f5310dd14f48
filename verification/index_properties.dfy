/**
  Properties of the grid index that relate several operations: where cell
  resolution can and cannot land, what insertion and deletion leave behind,
  how the queries respond to larger windows, and worked scenarios.
 */
module IndexProperties {
  import opened Geometry
  import opened IntervalStore
  import opened Trajectories
  import opened GridIndex
  import opened WindowQueries

  // ---------------------------------------------------------------------------
  // Cell geometry and resolution.

  /** The frame rectangle given to the constructor. */
  function FrameRect(f: Frame): Rect {
    Rect(f.xmin, f.ymin, f.xmax, f.ymax)
  }

  /** The area the cells cover; rounding nx and ny up may make it larger than the frame. */
  function Extent(g: Grid): (r: Rect)
    requires g.Valid()
    ensures r.Valid()
  {
    MulMonotone(0, g.nx, g.frame.dx);
    MulMonotone(0, g.ny, g.frame.dy);
    Rect(g.frame.xmin, g.frame.ymin, g.frame.xmin + g.nx * g.frame.dx, g.frame.ymin + g.ny * g.frame.dy)
  }

  lemma MulMonotone(a: int, b: int, d: int)
    requires a <= b && d >= 0
    ensures a * d <= b * d
  {
  }

  /** Every cell lies inside the covered area. */
  lemma CellWithinExtent(g: Grid, i: int, j: int)
    requires g.Valid() && 0 <= i < g.nx && 0 <= j < g.ny
    ensures g.frame.CellBox(i, j).Within(Extent(g))
  {
    MulMonotone(0, i, g.frame.dx);
    MulMonotone(i + 1, g.nx, g.frame.dx);
    MulMonotone(0, j, g.frame.dy);
    MulMonotone(j + 1, g.ny, g.frame.dy);
  }

  /** Points all lying outside the covered area resolve to no cell. */
  lemma PointsOutsideResolveNothing(g: Grid, pts: set<Point>)
    requires g.Valid()
    requires forall p :: p in pts ==> !Extent(g).Contains(p)
    ensures ResolveCells(g, Points(pts)) == []
  {
    var r := ResolveCells(g, Points(pts));
    if r != [] {
      var c := r[0];
      assert c in r;
      var p :| p in pts && g.frame.CellBox(c.i, c.j).Contains(p);
      CellWithinExtent(g, c.i, c.j);
      assert false;
    }
  }

  /** The column (or row) of an offset a in [0, n * d]: an i < n with i * d <= a <= (i + 1) * d. */
  lemma Locate(a: int, d: int, n: int) returns (i: int)
    requires d > 0 && n >= 1 && 0 <= a <= n * d
    ensures 0 <= i < n && i * d <= a <= i * d + d
  {
    i := a / d;
    assert a == i * d + a % d;
    if i >= n {
      MulMonotone(n, i, d);
      i := n - 1;
    }
  }

  /** A point of the frame, its closing edges included, lies in at least one cell. */
  lemma FramePointHasCell(g: Grid, p: Point)
    requires g.Valid()
    requires g.nx == CeilDiv(g.frame.xmax - g.frame.xmin, g.frame.dx)
    requires g.ny == CeilDiv(g.frame.ymax - g.frame.ymin, g.frame.dy)
    requires FrameRect(g.frame).Contains(p)
    ensures exists c :: c in ResolveCells(g, Points({p}))
  {
    var f := g.frame;
    var i := Locate(p.x - f.xmin, f.dx, g.nx);
    var j := Locate(p.y - f.ymin, f.dy, g.ny);
    assert f.CellBox(i, j).Contains(p);
    assert CellId(i, j) in ResolveCells(g, Points({p}));
  }

  /** A point on the edge shared by columns i - 1 and i resolves to both cells. */
  lemma SharedEdgeResolvesToBoth(g: Grid, p: Point, i: int, j: int)
    requires g.Valid()
    requires 0 < i < g.nx && 0 <= j < g.ny
    requires p.x == g.frame.xmin + i * g.frame.dx
    requires g.frame.ymin + j * g.frame.dy <= p.y <= g.frame.ymin + j * g.frame.dy + g.frame.dy
    ensures CellId(i - 1, j) in ResolveCells(g, Points({p}))
    ensures CellId(i, j) in ResolveCells(g, Points({p}))
  {
    assert g.frame.CellBox(i - 1, j).Contains(p);
    assert g.frame.CellBox(i, j).Contains(p);
  }

  // ---------------------------------------------------------------------------
  // Insertion.

  /** A trajectory with fewer than two samples inserts nothing. */
  lemma ShortTrajectoryInsertsNothing(g: Grid, T: Trajectory)
    requires g.Valid() && T.Increasing()
    requires |T.tgpairs| < 2
    ensures Insert(g, T) == g
  {
    var r := Insert(g, T);
    forall i, j | 0 <= i < g.nx && 0 <= j < g.ny
      ensures r.cells[i][j] == g.cells[i][j]
    {
      assert Recorded(g.frame, T, i, j, T.SegmentCount()) == {};
    }
    GridsEqual(r, g);
  }

  /** A cell is resolved from segment k's footprint exactly when it holds one of the segment's endpoints. */
  lemma ResolvedIffTouches(g: Grid, T: Trajectory, k: nat, i: int, j: int)
    requires g.Valid() && k < T.SegmentCount()
    requires 0 <= i < g.nx && 0 <= j < g.ny
    ensures CellId(i, j) in ResolveCells(g, T.SegmentShape(k)) <==> T.Touches(k, g.frame.CellBox(i, j))
  {
  }

  /** Segment k's entry is in every cell its footprint resolves to. */
  lemma InsertRecordsSegment(g: Grid, T: Trajectory, k: nat, c: CellId)
    requires g.Valid() && T.Increasing()
    requires k < T.SegmentCount()
    requires c in ResolveCells(g, T.SegmentShape(k))
    ensures T.SegmentEntry(k) in Insert(g, T).cells[c.i][c.j]
  {
    assert T.Touches(k, g.frame.CellBox(c.i, c.j));
    assert T.SegmentEntry(k) in Recorded(g.frame, T, c.i, c.j, T.SegmentCount());
  }

  /** A cell that no segment's footprint resolves to keeps its store. */
  lemma InsertLeavesUnresolvedCell(g: Grid, T: Trajectory, i: int, j: int)
    requires g.Valid() && T.Increasing()
    requires 0 <= i < g.nx && 0 <= j < g.ny
    requires forall k :: 0 <= k < T.SegmentCount() ==> CellId(i, j) !in ResolveCells(g, T.SegmentShape(k))
    ensures Insert(g, T).cells[i][j] == g.cells[i][j]
  {
    var box := g.frame.CellBox(i, j);
    forall k | 0 <= k < T.SegmentCount()
      ensures !T.Touches(k, box)
    {
      ResolvedIffTouches(g, T, k, i, j);
    }
    assert Recorded(g.frame, T, i, j, T.SegmentCount()) == {};
  }

  /** Every entry insertion adds carries the trajectory's id. */
  lemma InsertAddsOnlyItsId(g: Grid, T: Trajectory, i: int, j: int, e: Entry)
    requires g.Valid() && T.Increasing()
    requires 0 <= i < g.nx && 0 <= j < g.ny
    ensures e in Insert(g, T).cells[i][j] && e !in g.cells[i][j] ==> e.id == T.id
  {
    if e in Insert(g, T).cells[i][j] && e !in g.cells[i][j] {
      var k :| 0 <= k < T.SegmentCount() && T.Touches(k, g.frame.CellBox(i, j)) && e == T.SegmentEntry(k);
    }
  }

  // ---------------------------------------------------------------------------
  // Deletion.

  /** No cell holds an entry for `id`. */
  ghost predicate Absent(g: Grid, id: TrajId)
    requires g.Valid()
  {
    forall i, j, e :: 0 <= i < g.nx && 0 <= j < g.ny && e in g.cells[i][j] ==> e.id != id
  }

  /** After delete(id) no query reports the id. */
  lemma DeleteLeavesNoResidue(g: Grid, id: TrajId, x1: int, y1: int, x2: int, y2: int, t1: int, t2: int)
    requires g.Valid()
    ensures Absent(Delete(g, id), id)
    ensures id !in SpatialWindowQuery(Delete(g, id), x1, y1, x2, y2)
    ensures id !in TemporalWindowQuery(Delete(g, id), t1, t2)
  {
  }

  /** Deleting an id no cell mentions is a no-op. */
  lemma DeleteAbsentIsNoop(g: Grid, id: TrajId)
    requires g.Valid() && Absent(g, id)
    ensures Delete(g, id) == g
  {
    var r := Delete(g, id);
    forall i, j | 0 <= i < g.nx && 0 <= j < g.ny
      ensures r.cells[i][j] == g.cells[i][j]
    {
      RemoveAbsentId(g.cells[i][j], id);
    }
    GridsEqual(r, g);
  }

  /** delete is idempotent. */
  lemma DeleteIdempotent(g: Grid, id: TrajId)
    requires g.Valid()
    ensures Delete(Delete(g, id), id) == Delete(g, id)
  {
    var once := Delete(g, id);
    var twice := Delete(once, id);
    forall i, j | 0 <= i < g.nx && 0 <= j < g.ny
      ensures twice.cells[i][j] == once.cells[i][j]
    {
      RemoveIdIdempotent(g.cells[i][j], id);
    }
    GridsEqual(twice, once);
  }

  /** Deleting a trajectory the grid did not hold undoes its insertion exactly. */
  lemma InsertThenDeleteRestores(g: Grid, T: Trajectory)
    requires g.Valid() && T.Increasing()
    requires Absent(g, T.id)
    ensures Delete(Insert(g, T), T.id) == g
  {
    var mid := Insert(g, T);
    var r := Delete(mid, T.id);
    forall i, j | 0 <= i < g.nx && 0 <= j < g.ny
      ensures r.cells[i][j] == g.cells[i][j]
    {
      forall e | e in r.cells[i][j] ensures e in g.cells[i][j] {
        if e !in g.cells[i][j] {
          InsertAddsOnlyItsId(g, T, i, j, e);
        }
      }
    }
    GridsEqual(r, g);
  }

  // ---------------------------------------------------------------------------
  // Queries.

  /** Enlarging the spatial window never loses an id. */
  lemma SpatialQueryMonotone(g: Grid, x1: int, y1: int, x2: int, y2: int, u1: int, v1: int, u2: int, v2: int)
    requires g.Valid()
    requires Box(x1, y1, x2, y2).Within(Box(u1, v1, u2, v2))
    ensures SpatialWindowQuery(g, x1, y1, x2, y2) <= SpatialWindowQuery(g, u1, v1, u2, v2)
  {
    var small := SpatialWindowQuery(g, x1, y1, x2, y2);
    var large := SpatialWindowQuery(g, u1, v1, u2, v2);
    forall id | id in small ensures id in large {
      var i, j :| 0 <= i < g.nx && 0 <= j < g.ny
                  && RectsIntersect(Box(x1, y1, x2, y2), g.frame.CellBox(i, j))
                  && CellHolds(g, i, j, id, AnyTime);
      assert RectsIntersect(Box(u1, v1, u2, v2), g.frame.CellBox(i, j));
    }
  }

  /** Enlarging the time window never loses an id. */
  lemma TemporalQueryMonotone(g: Grid, t1: int, t2: int, u1: int, u2: int)
    requires g.Valid()
    requires u1 <= t1 && t2 <= u2
    ensures TemporalWindowQuery(g, t1, t2) <= TemporalWindowQuery(g, u1, u2)
  {
    var small := TemporalWindowQuery(g, t1, t2);
    var large := TemporalWindowQuery(g, u1, u2);
    forall id | id in small ensures id in large {
      var i, j :| 0 <= i < g.nx && 0 <= j < g.ny && CellHolds(g, i, j, id, During(t1, t2));
      var e :| e in g.cells[i][j] && e.id == id && Admits(During(t1, t2), e);
      assert Admits(During(u1, u2), e);
    }
  }

  /** A window with t1 >= t2 reports nothing, in the temporal and in the combined query. */
  lemma EmptyTimeWindow(g: Grid, x1: int, y1: int, x2: int, y2: int, t1: int, t2: int)
    requires g.Valid() && t1 >= t2
    ensures TemporalWindowQuery(g, t1, t2) == {}
    ensures SpatiotemporalWindowQuery(g, x1, y1, x2, y2, t1, t2) == {}
  {
  }

  /**
    After insert(T), a segment with an endpoint in cell (i, j) is found by every
    spatial window meeting that cell and by every time window it overlaps.
   */
  lemma InsertedIsFound(g: Grid, T: Trajectory, k: nat, i: int, j: int,
                        x1: int, y1: int, x2: int, y2: int, t1: int, t2: int)
    requires g.Valid() && T.Increasing()
    requires k < T.SegmentCount() && 0 <= i < g.nx && 0 <= j < g.ny
    requires T.Touches(k, g.frame.CellBox(i, j))
    ensures RectsIntersect(Box(x1, y1, x2, y2), g.frame.CellBox(i, j)) ==>
              T.id in SpatialWindowQuery(Insert(g, T), x1, y1, x2, y2)
    ensures Overlaps(T.tgpairs[k].t, T.tgpairs[k + 1].t, t1, t2) ==>
              T.id in TemporalWindowQuery(Insert(g, T), t1, t2)
  {
    var r := Insert(g, T);
    var e := T.SegmentEntry(k);
    assert e in Recorded(g.frame, T, i, j, T.SegmentCount());
    assert e in r.cells[i][j];
    assert CellHolds(r, i, j, T.id, AnyTime);
    if Overlaps(T.tgpairs[k].t, T.tgpairs[k + 1].t, t1, t2) {
      assert CellHolds(r, i, j, T.id, During(t1, t2));
    }
  }

  /**
    A spatial window whose cells hold no endpoint of T does not report T after
    insert(T), when the grid held nothing for T before.
   */
  lemma InsertedIsMissedAway(g: Grid, T: Trajectory, x1: int, y1: int, x2: int, y2: int)
    requires g.Valid() && T.Increasing() && Absent(g, T.id)
    requires forall k, i, j :: 0 <= k < T.SegmentCount() && 0 <= i < g.nx && 0 <= j < g.ny
                               && RectsIntersect(Box(x1, y1, x2, y2), g.frame.CellBox(i, j))
                               ==> !T.Touches(k, g.frame.CellBox(i, j))
    ensures T.id !in SpatialWindowQuery(Insert(g, T), x1, y1, x2, y2)
  {
    var r := Insert(g, T);
    forall i, j | 0 <= i < g.nx && 0 <= j < g.ny && RectsIntersect(Box(x1, y1, x2, y2), g.frame.CellBox(i, j))
      ensures !CellHolds(r, i, j, T.id, AnyTime)
    {
      assert Recorded(g.frame, T, i, j, T.SegmentCount()) == {};
    }
  }

  /**
    After insert(T), an endpoint p of segment k lying in the cells' area makes T
    visible to every spatial window containing p.
   */
  lemma EndpointInWindowIsFound(g: Grid, T: Trajectory, k: nat, p: Point, x1: int, y1: int, x2: int, y2: int)
    requires g.Valid() && T.Increasing()
    requires k < T.SegmentCount() && (p == T.tgpairs[k].p || p == T.tgpairs[k + 1].p)
    requires Extent(g).Contains(p) && Box(x1, y1, x2, y2).Contains(p)
    ensures T.id in SpatialWindowQuery(Insert(g, T), x1, y1, x2, y2)
  {
    var c := CellOf(g, p);
    InsertedIsFound(g, T, k, c.i, c.j, x1, y1, x2, y2, 0, 0);
  }

  /**
    After insert(T), a segment with an endpoint in the cells' area makes T
    visible to every time window the segment overlaps.
   */
  lemma SegmentInWindowIsFound(g: Grid, T: Trajectory, k: nat, t1: int, t2: int)
    requires g.Valid() && T.Increasing()
    requires k < T.SegmentCount() && Extent(g).Contains(T.tgpairs[k].p)
    requires Overlaps(T.tgpairs[k].t, T.tgpairs[k + 1].t, t1, t2)
    ensures T.id in TemporalWindowQuery(Insert(g, T), t1, t2)
  {
    var c := CellOf(g, T.tgpairs[k].p);
    InsertedIsFound(g, T, k, c.i, c.j, 0, 0, 0, 0, t1, t2);
  }

  /** A cell holding a point of the cells' area. */
  lemma CellOf(g: Grid, p: Point) returns (c: CellId)
    requires g.Valid() && Extent(g).Contains(p)
    ensures g.InRange(c) && g.frame.CellBox(c.i, c.j).Contains(p)
  {
    var i := Locate(p.x - g.frame.xmin, g.frame.dx, g.nx);
    var j := Locate(p.y - g.frame.ymin, g.frame.dy, g.ny);
    c := CellId(i, j);
  }

  /** p lies more than one cell width beyond the box on some side. */
  predicate FarFrom(p: Point, b: Rect, dx: int, dy: int) {
    p.x < b.xlo - dx || p.x > b.xhi + dx || p.y < b.ylo - dy || p.y > b.yhi + dy
  }

  /**
    No cell holding a point that far from the box meets the box: when every
    sample of T is that far, insert(T) leaves T invisible to the window.
   */
  lemma FarSamplesAreMissed(g: Grid, T: Trajectory, x1: int, y1: int, x2: int, y2: int)
    requires g.Valid() && T.Increasing() && Absent(g, T.id)
    requires forall n :: 0 <= n < |T.tgpairs| ==> FarFrom(T.tgpairs[n].p, Box(x1, y1, x2, y2), g.frame.dx, g.frame.dy)
    ensures T.id !in SpatialWindowQuery(Insert(g, T), x1, y1, x2, y2)
  {
    var b := Box(x1, y1, x2, y2);
    forall k, i, j | 0 <= k < T.SegmentCount() && 0 <= i < g.nx && 0 <= j < g.ny
                     && RectsIntersect(b, g.frame.CellBox(i, j))
      ensures !T.Touches(k, g.frame.CellBox(i, j))
    {
      assert FarFrom(T.tgpairs[k].p, b, g.frame.dx, g.frame.dy);
      assert FarFrom(T.tgpairs[k + 1].p, b, g.frame.dx, g.frame.dy);
    }
    InsertedIsMissedAway(g, T, x1, y1, x2, y2);
  }

  // ---------------------------------------------------------------------------
  // Scenarios on a 100 x 100 frame with 10 x 10 cells.

  /** The frame [0, 100] x [0, 100] with 10 x 10 cells, stated field by field. */
  predicate Frame100(f: Frame) {
    f.xmin == 0 && f.xmax == 100 && f.ymin == 0 && f.ymax == 100 && f.dx == 10 && f.dy == 10
  }

  /** Every cell store is empty. */
  ghost predicate Empty(g: Grid)
    requires g.Valid()
  {
    forall i, j :: 0 <= i < g.nx && 0 <= j < g.ny ==> g.cells[i][j] == {}
  }

  /** An empty grid over `f`, as the constructor builds it. */
  ghost predicate Fresh(g: Grid, f: Frame) {
    && g.Valid() && g.frame == f
    && g.nx == CeilDiv(f.xmax - f.xmin, f.dx) && g.ny == CeilDiv(f.ymax - f.ymin, f.dy)
    && Empty(g)
  }

  /** The constructor builds the only fresh grid over its frame. */
  lemma NewIsTheFreshGrid(g: Grid, f: Frame)
    requires f.Valid()
    ensures Fresh(New(f.xmin, f.xmax, f.ymin, f.ymax, f.dx, f.dy), f)
    ensures Fresh(g, f) ==> g == New(f.xmin, f.xmax, f.ymin, f.ymax, f.dx, f.dy)
  {
    if Fresh(g, f) {
      GridsEqual(g, New(f.xmin, f.xmax, f.ymin, f.ymax, f.dx, f.dy));
    }
  }

  /** An empty grid holds no trajectory. */
  lemma EmptyHoldsNothing(g: Grid, id: TrajId)
    requires g.Valid() && Empty(g)
    ensures Absent(g, id)
  {
  }

  /** A grid over the 100 x 100 frame with its 10 x 10 cells. */
  ghost predicate Grid100(g: Grid) {
    g.Valid() && Frame100(g.frame) && g.nx == 10 && g.ny == 10
  }

  /** The constructor over the 100 x 100 frame builds an empty grid of 10 x 10 cells. */
  lemma Fresh100(g: Grid, f: Frame)
    requires Fresh(g, f) && Frame100(f)
    ensures Grid100(g) && Empty(g)
  {
  }

  /**
    Trajectory 1 moves from (0, 5) at time 0 to (50, 5) at time 10: the window
    (0, 0)-(10, 10) finds it, the time window [5, 15) finds it, and the window
    (90, 90)-(100, 100) does not.
   */
  lemma TwoSampleScenario(g0: Grid, T: Trajectory)
    requires Grid100(g0) && Empty(g0)
    requires T.id == 1 && |T.tgpairs| == 2
    requires T.tgpairs[0] == Sample(0, Point(0, 5)) && T.tgpairs[1] == Sample(10, Point(50, 5))
    ensures 1 in SpatialWindowQuery(Insert(g0, T), 0, 0, 10, 10)
    ensures 1 in TemporalWindowQuery(Insert(g0, T), 5, 15)
    ensures 1 !in SpatialWindowQuery(Insert(g0, T), 90, 90, 100, 100)
  {
    TwoSampleSpatialHit(g0, T);
    TwoSampleTemporalHit(g0, T);
    TwoSampleMissed(g0, T);
  }

  lemma TwoSampleSpatialHit(g0: Grid, T: Trajectory)
    requires Grid100(g0)
    requires T.id == 1 && |T.tgpairs| == 2
    requires T.tgpairs[0] == Sample(0, Point(0, 5)) && T.tgpairs[1] == Sample(10, Point(50, 5))
    ensures 1 in SpatialWindowQuery(Insert(g0, T), 0, 0, 10, 10)
  {
    TwoSampleLayout(g0, T);
    EndpointInWindowIsFound(g0, T, 0, Point(0, 5), 0, 0, 10, 10);
  }

  lemma TwoSampleTemporalHit(g0: Grid, T: Trajectory)
    requires Grid100(g0)
    requires T.id == 1 && |T.tgpairs| == 2
    requires T.tgpairs[0] == Sample(0, Point(0, 5)) && T.tgpairs[1] == Sample(10, Point(50, 5))
    ensures 1 in TemporalWindowQuery(Insert(g0, T), 5, 15)
  {
    TwoSampleLayout(g0, T);
    SegmentInWindowIsFound(g0, T, 0, 5, 15);
  }

  lemma TwoSampleMissed(g0: Grid, T: Trajectory)
    requires Grid100(g0) && Empty(g0)
    requires T.id == 1 && |T.tgpairs| == 2
    requires T.tgpairs[0] == Sample(0, Point(0, 5)) && T.tgpairs[1] == Sample(10, Point(50, 5))
    ensures 1 !in SpatialWindowQuery(Insert(g0, T), 90, 90, 100, 100)
  {
    TwoSampleLayout(g0, T);
    EmptyHoldsNothing(g0, 1);
    FarSamplesAreMissed(g0, T, 90, 90, 100, 100);
  }

  /** The plain arithmetic behind the two-sample scenario. */
  lemma TwoSampleLayout(g0: Grid, T: Trajectory)
    requires Grid100(g0)
    requires T.id == 1 && |T.tgpairs| == 2
    requires T.tgpairs[0] == Sample(0, Point(0, 5)) && T.tgpairs[1] == Sample(10, Point(50, 5))
    ensures T.Increasing() && T.SegmentCount() == 1
    ensures Extent(g0).Contains(Point(0, 5)) && Box(0, 0, 10, 10).Contains(Point(0, 5))
    ensures Extent(g0).Contains(T.tgpairs[0].p)
    ensures Overlaps(T.tgpairs[0].t, T.tgpairs[1].t, 5, 15)
    ensures forall n :: 0 <= n < |T.tgpairs| ==> FarFrom(T.tgpairs[n].p, Box(90, 90, 100, 100), g0.frame.dx, g0.frame.dy)
  {
    T.StepsIncreasing();
  }

  /**
    A segment is recorded only in the cells of its endpoints: moving from (5, 5)
    to (45, 5) crosses cells (1, 0) to (3, 0), yet a window inside cell (2, 0)
    misses it, while a window around (5, 5) finds it.
   */
  lemma CrossedCellNotRecorded(g0: Grid, T: Trajectory)
    requires Grid100(g0) && Empty(g0)
    requires T.id == 7 && |T.tgpairs| == 2
    requires T.tgpairs[0] == Sample(0, Point(5, 5)) && T.tgpairs[1] == Sample(10, Point(45, 5))
    ensures 7 !in SpatialWindowQuery(Insert(g0, T), 22, 2, 28, 8)
    ensures 7 in SpatialWindowQuery(Insert(g0, T), 2, 2, 8, 8)
  {
    CrossedCellMissed(g0, T);
    CrossedCellFound(g0, T);
  }

  lemma CrossedCellMissed(g0: Grid, T: Trajectory)
    requires Grid100(g0) && Empty(g0)
    requires T.id == 7 && |T.tgpairs| == 2
    requires T.tgpairs[0] == Sample(0, Point(5, 5)) && T.tgpairs[1] == Sample(10, Point(45, 5))
    ensures 7 !in SpatialWindowQuery(Insert(g0, T), 22, 2, 28, 8)
  {
    CrossedCellLayout(g0, T);
    EmptyHoldsNothing(g0, 7);
    FarSamplesAreMissed(g0, T, 22, 2, 28, 8);
  }

  lemma CrossedCellFound(g0: Grid, T: Trajectory)
    requires Grid100(g0)
    requires T.id == 7 && |T.tgpairs| == 2
    requires T.tgpairs[0] == Sample(0, Point(5, 5)) && T.tgpairs[1] == Sample(10, Point(45, 5))
    ensures 7 in SpatialWindowQuery(Insert(g0, T), 2, 2, 8, 8)
  {
    CrossedCellLayout(g0, T);
    EndpointInWindowIsFound(g0, T, 0, Point(5, 5), 2, 2, 8, 8);
  }

  /** The plain arithmetic behind the crossed-cell scenario. */
  lemma CrossedCellLayout(g0: Grid, T: Trajectory)
    requires Grid100(g0)
    requires T.id == 7 && |T.tgpairs| == 2
    requires T.tgpairs[0] == Sample(0, Point(5, 5)) && T.tgpairs[1] == Sample(10, Point(45, 5))
    ensures T.Increasing() && T.SegmentCount() == 1
    ensures Extent(g0).Contains(Point(5, 5)) && Box(2, 2, 8, 8).Contains(Point(5, 5))
    ensures forall n :: 0 <= n < |T.tgpairs| ==> FarFrom(T.tgpairs[n].p, Box(22, 2, 28, 8), g0.frame.dx, g0.frame.dy)
  {
    T.StepsIncreasing();
  }

  /**
    The combined query intersects two independent answers: trajectory 3 is in
    the box (0, 0)-(4, 4) at time 0, and both samples bounding its segment inside
    the window [15, 20) lie outside the box, yet the spatiotemporal query for
    that box and window reports it.
   */
  lemma SpatiotemporalOverApproximates(g0: Grid, T: Trajectory)
    requires Grid100(g0) && Empty(g0)
    requires T.id == 3 && |T.tgpairs| == 3
    requires T.tgpairs[0] == Sample(0, Point(2, 2)) && T.tgpairs[1] == Sample(10, Point(55, 55))
    requires T.tgpairs[2] == Sample(20, Point(75, 75))
    ensures 3 in SpatiotemporalWindowQuery(Insert(g0, T), 0, 0, 4, 4, 15, 20)
    // the samples bounding the segment that overlaps [15, 20) lie outside the box
    ensures !Box(0, 0, 4, 4).Contains(T.tgpairs[1].p) && !Box(0, 0, 4, 4).Contains(T.tgpairs[2].p)
  {
    ThreeSampleLayout(g0, T);
    ThreeSampleSpatialHit(g0, T);
    ThreeSampleTemporalHit(g0, T);
  }

  lemma ThreeSampleSpatialHit(g0: Grid, T: Trajectory)
    requires Grid100(g0)
    requires T.id == 3 && |T.tgpairs| == 3
    requires T.tgpairs[0] == Sample(0, Point(2, 2)) && T.tgpairs[1] == Sample(10, Point(55, 55))
    requires T.tgpairs[2] == Sample(20, Point(75, 75))
    ensures 3 in SpatialWindowQuery(Insert(g0, T), 0, 0, 4, 4)
  {
    ThreeSampleLayout(g0, T);
    EndpointInWindowIsFound(g0, T, 0, Point(2, 2), 0, 0, 4, 4);
  }

  lemma ThreeSampleTemporalHit(g0: Grid, T: Trajectory)
    requires Grid100(g0)
    requires T.id == 3 && |T.tgpairs| == 3
    requires T.tgpairs[0] == Sample(0, Point(2, 2)) && T.tgpairs[1] == Sample(10, Point(55, 55))
    requires T.tgpairs[2] == Sample(20, Point(75, 75))
    ensures 3 in TemporalWindowQuery(Insert(g0, T), 15, 20)
  {
    ThreeSampleLayout(g0, T);
    SegmentInWindowIsFound(g0, T, 1, 15, 20);
  }

  /** The plain arithmetic behind the spatiotemporal scenario. */
  lemma ThreeSampleLayout(g0: Grid, T: Trajectory)
    requires Grid100(g0)
    requires T.id == 3 && |T.tgpairs| == 3
    requires T.tgpairs[0] == Sample(0, Point(2, 2)) && T.tgpairs[1] == Sample(10, Point(55, 55))
    requires T.tgpairs[2] == Sample(20, Point(75, 75))
    ensures T.Increasing() && T.SegmentCount() == 2
    ensures Extent(g0).Contains(Point(2, 2)) && Box(0, 0, 4, 4).Contains(Point(2, 2))
    ensures Extent(g0).Contains(T.tgpairs[1].p) && Overlaps(T.tgpairs[1].t, T.tgpairs[2].t, 15, 20)
    ensures !Box(0, 0, 4, 4).Contains(T.tgpairs[1].p) && !Box(0, 0, 4, 4).Contains(T.tgpairs[2].p)
  {
    T.StepsIncreasing();
  }
}
