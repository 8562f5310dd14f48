/**
  The grid index for trajectories: a fixed uniform nx x ny grid over a
  spatial frame, each cell holding an interval store.

  Coordinates, cell sizes and timestamps are integers; the cell rectangles are
  closed, so a point on an edge shared by two cells belongs to both. Because
  nx and ny are rounded up, the last column and row may reach beyond
  xmax and ymax.
 */
module GridIndex {
  import opened Geometry
  import opened IntervalStore
  import opened Trajectories

  /** Spatial bounds and cell size, as passed to the constructor. */
  datatype Frame = Frame(xmin: int, xmax: int, ymin: int, ymax: int, dx: int, dy: int) {

    predicate Valid() {
      xmax > xmin && ymax > ymin && dx > 0 && dy > 0
    }

    /** The closed rectangle of cell (i, j): [xmin + i * dx, xmin + (i + 1) * dx] x [ymin + j * dy, ymin + (j + 1) * dy]. */
    function CellBox(i: int, j: int): Rect {
      Rect(xmin + i * dx, ymin + j * dy, xmin + i * dx + dx, ymin + j * dy + dy)
    }
  }

  /** The ceiling of a / b for b > 0: the q with (q - 1) * b < a <= q * b. */
  function CeilDiv(a: int, b: int): (q: int)
    requires b > 0
    ensures (q - 1) * b < a <= q * b
  {
    if a % b == 0 then a / b else a / b + 1
  }

  datatype CellId = CellId(i: int, j: int)

  /** `cells` is nx columns of ny stores each. */
  predicate Shaped(cells: seq<seq<Store>>, nx: int, ny: int) {
    |cells| == nx && forall i :: 0 <= i < nx ==> |cells[i]| == ny
  }

  /**
    The grid: nx columns of ny cell stores over `frame`. The constructor fixes
    nx and ny; insertion and deletion keep the frame and the dimensions.
   */
  datatype Grid = Grid(frame: Frame, nx: int, ny: int, cells: seq<seq<Store>>) {

    predicate Valid() {
      frame.Valid() && nx >= 1 && ny >= 1 && Shaped(cells, nx, ny)
    }

    predicate InRange(c: CellId) {
      0 <= c.i < nx && 0 <= c.j < ny
    }
  }

  /** Two grids over the same frame are equal when every cell holds the same store. */
  lemma GridsEqual(a: Grid, b: Grid)
    requires a.Valid() && b.Valid() && a.frame == b.frame && a.nx == b.nx && a.ny == b.ny
    requires forall i, j :: 0 <= i < a.nx && 0 <= j < a.ny ==> a.cells[i][j] == b.cells[i][j]
    ensures a == b
  {
    forall i | 0 <= i < a.nx
      ensures a.cells[i] == b.cells[i]
    {
    }
  }

  /** The constructor: nx x ny empty cells, with nx and ny the rounded-up cell counts. */
  function New(xmin: int, xmax: int, ymin: int, ymax: int, dx: int, dy: int): (g: Grid)
    requires xmax > xmin && ymax > ymin && dx > 0 && dy > 0
    ensures g.Valid() && g.frame == Frame(xmin, xmax, ymin, ymax, dx, dy)
    ensures g.nx >= 1 && g.ny >= 1
    // the columns cover [xmin, xmax] and no column lies wholly beyond xmax; likewise the rows
    ensures g.nx == CeilDiv(xmax - xmin, dx) && g.ny == CeilDiv(ymax - ymin, dy)
    ensures (g.nx - 1) * dx < xmax - xmin <= g.nx * dx
    ensures (g.ny - 1) * dy < ymax - ymin <= g.ny * dy
    ensures forall i, j :: 0 <= i < g.nx && 0 <= j < g.ny ==> g.cells[i][j] == {}
  {
    var nx := CeilDiv(xmax - xmin, dx);
    var ny := CeilDiv(ymax - ymin, dy);
    Grid(Frame(xmin, xmax, ymin, ymax, dx, dy), nx, ny, seq(nx, _ => seq(ny, _ => {})))
  }

  // ---------------------------------------------------------------------------
  // Cell resolution: scan every cell, column by column, keeping those whose
  // closed rectangle intersects the shape.

  /** Scan order: by column, then by row. */
  predicate Before(c: CellId, d: CellId) {
    c.i < d.i || (c.i == d.i && c.j < d.j)
  }

  /** The cells (i, j), (i, j + 1), ..., (i, ny - 1) that intersect `s`, in order. */
  function ColumnCells(f: Frame, s: Shape, i: int, j: int, ny: int): (r: seq<CellId>)
    requires 0 <= j <= ny
    decreases ny - j
    ensures forall k :: 0 <= k < |r| ==> r[k].i == i && j <= r[k].j < ny && Intersects(s, f.CellBox(i, r[k].j))
    ensures forall jj :: j <= jj < ny && Intersects(s, f.CellBox(i, jj)) ==> CellId(i, jj) in r
    ensures forall a, b :: 0 <= a < b < |r| ==> r[a].j < r[b].j
  {
    if j == ny then []
    else if Intersects(s, f.CellBox(i, j)) then [CellId(i, j)] + ColumnCells(f, s, i, j + 1, ny)
    else ColumnCells(f, s, i, j + 1, ny)
  }

  /** The cells of columns i, ..., nx - 1 that intersect `s`, in scan order. */
  function ColumnsFrom(f: Frame, s: Shape, i: int, nx: int, ny: int): (r: seq<CellId>)
    requires 0 <= i <= nx && 0 <= ny
    decreases nx - i
    ensures forall k :: 0 <= k < |r| ==>
              i <= r[k].i < nx && 0 <= r[k].j < ny && Intersects(s, f.CellBox(r[k].i, r[k].j))
    ensures forall ii, jj :: i <= ii < nx && 0 <= jj < ny && Intersects(s, f.CellBox(ii, jj)) ==> CellId(ii, jj) in r
    ensures forall a, b :: 0 <= a < b < |r| ==> Before(r[a], r[b])
  {
    if i == nx then []
    else
      var here := ColumnCells(f, s, i, 0, ny);
      var rest := ColumnsFrom(f, s, i + 1, nx, ny);
      assert forall a, b :: 0 <= a < |here| && 0 <= b < |rest| ==> Before(here[a], rest[b]);
      here + rest
  }

  /** The cells of the grid whose closed rectangle intersects `s`, each once, in scan order. */
  function ResolveCells(g: Grid, s: Shape): (r: seq<CellId>)
    requires g.Valid()
    ensures forall c :: c in r <==> g.InRange(c) && Intersects(s, g.frame.CellBox(c.i, c.j))
    ensures forall a, b :: 0 <= a < b < |r| ==> Before(r[a], r[b]) && r[a] != r[b]
  {
    ColumnsFrom(g.frame, s, 0, g.nx, g.ny)
  }

  // ---------------------------------------------------------------------------
  // Insertion.

  /** Adds `e` to the store of every cell listed in `at`. */
  function AddToCells(cells: seq<seq<Store>>, nx: int, ny: int, at: seq<CellId>, e: Entry): (r: seq<seq<Store>>)
    requires Shaped(cells, nx, ny)
    requires forall k :: 0 <= k < |at| ==> 0 <= at[k].i < nx && 0 <= at[k].j < ny
    ensures Shaped(r, nx, ny)
    ensures forall i, j :: 0 <= i < nx && 0 <= j < ny ==>
              r[i][j] == if CellId(i, j) in at then cells[i][j] + {e} else cells[i][j]
  {
    if at == [] then cells
    else
      var c := at[0];
      var rest := AddToCells(cells, nx, ny, at[1..], e);
      rest[c.i := rest[c.i][c.j := rest[c.i][c.j] + {e}]]
  }

  /**
    The entries the first n segments of T leave in cell (i, j): one per segment
    with an endpoint in the cell's closed rectangle.
   */
  ghost function Recorded(f: Frame, T: Trajectory, i: int, j: int, n: nat): set<Entry>
    requires n <= T.SegmentCount()
  {
    set k | 0 <= k < n && T.Touches(k, f.CellBox(i, j)) :: T.SegmentEntry(k)
  }

  lemma RecordedStep(f: Frame, T: Trajectory, i: int, j: int, n: nat)
    requires 0 < n <= T.SegmentCount()
    ensures Recorded(f, T, i, j, n) == Recorded(f, T, i, j, n - 1) + T.EntriesIn(n - 1, f.CellBox(i, j))
  {
    var box := f.CellBox(i, j);
    forall e | e in Recorded(f, T, i, j, n)
      ensures e in Recorded(f, T, i, j, n - 1) + T.EntriesIn(n - 1, box)
    {
      var k :| 0 <= k < n && T.Touches(k, box) && e == T.SegmentEntry(k);
      if k < n - 1 {
        assert e in Recorded(f, T, i, j, n - 1);
      }
    }
  }

  /** One iteration of the insertion loop: segment k's entry goes into every cell its footprint resolves to. */
  function AddSegment(g: Grid, T: Trajectory, k: nat): (r: Grid)
    requires g.Valid() && k < T.SegmentCount()
    ensures r.Valid() && r.frame == g.frame && r.nx == g.nx && r.ny == g.ny
    ensures forall i, j :: 0 <= i < g.nx && 0 <= j < g.ny ==>
              r.cells[i][j] == g.cells[i][j] + T.EntriesIn(k, g.frame.CellBox(i, j))
  {
    var at := ResolveCells(g, T.SegmentShape(k));
    g.(cells := AddToCells(g.cells, g.nx, g.ny, at, T.SegmentEntry(k)))
  }

  /** Processes the first n segments of T, in order. */
  function InsertSegments(g: Grid, T: Trajectory, n: nat): (r: Grid)
    requires g.Valid() && n <= T.SegmentCount()
    ensures r.Valid() && r.frame == g.frame && r.nx == g.nx && r.ny == g.ny
    ensures forall i, j :: 0 <= i < g.nx && 0 <= j < g.ny ==>
              r.cells[i][j] == g.cells[i][j] + Recorded(g.frame, T, i, j, n)
  {
    if n == 0 then g
    else
      var prev := InsertSegments(g, T, n - 1);
      var r := AddSegment(prev, T, n - 1);
      assert forall i, j :: 0 <= i < g.nx && 0 <= j < g.ny ==>
               r.cells[i][j] == g.cells[i][j] + Recorded(g.frame, T, i, j, n) by {
        forall i, j | 0 <= i < g.nx && 0 <= j < g.ny
          ensures r.cells[i][j] == g.cells[i][j] + Recorded(g.frame, T, i, j, n)
        {
          RecordedStep(g.frame, T, i, j, n);
          UnionAssoc(g.cells[i][j], Recorded(g.frame, T, i, j, n - 1), T.EntriesIn(n - 1, g.frame.CellBox(i, j)));
        }
      }
      r
  }

  lemma UnionAssoc<X>(a: set<X>, b: set<X>, c: set<X>)
    ensures (a + b) + c == a + (b + c)
  {
  }

  /**
    insert(T): every segment's entry goes into every cell holding one of the
    segment's two endpoints; nothing else changes. A trajectory with fewer than
    two samples has no segment and leaves the grid as it was.
   */
  function Insert(g: Grid, T: Trajectory): (r: Grid)
    requires g.Valid()
    requires T.Increasing()
    ensures r.Valid() && r.frame == g.frame && r.nx == g.nx && r.ny == g.ny
    ensures forall i, j :: 0 <= i < g.nx && 0 <= j < g.ny ==>
              r.cells[i][j] == g.cells[i][j] + Recorded(g.frame, T, i, j, T.SegmentCount())
  {
    InsertSegments(g, T, T.SegmentCount())
  }

  // ---------------------------------------------------------------------------
  // Deletion.

  /** delete(id): scans every cell and removes each entry carrying the id. */
  function Delete(g: Grid, id: TrajId): (r: Grid)
    requires g.Valid()
    ensures r.Valid() && r.frame == g.frame && r.nx == g.nx && r.ny == g.ny
    ensures forall i, j, e :: 0 <= i < g.nx && 0 <= j < g.ny ==>
              (e in r.cells[i][j] <==> e in g.cells[i][j] && e.id != id)
  {
    g.(cells := seq(g.nx, i requires 0 <= i < g.nx =>
                  seq(g.ny, j requires 0 <= j < g.ny => RemoveId(g.cells[i][j], id))))
  }
}
