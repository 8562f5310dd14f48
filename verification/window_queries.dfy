/**
  The three window queries of the grid index. Each visits a set of cells and
  unions the trajectory ids found there: the spatial query visits the cells
  meeting the query box and takes every entry whatever its time; the temporal
  query visits every cell and takes the entries overlapping the time window;
  the spatiotemporal query intersects the two answers.
 */
module WindowQueries {
  import opened Geometry
  import opened IntervalStore
  import opened GridIndex

  /** Which entries of a visited cell contribute their id. */
  datatype TimeFilter = AnyTime | During(t1: int, t2: int)

  predicate Admits(flt: TimeFilter, e: Entry) {
    match flt
    case AnyTime => true
    case During(t1, t2) => Overlaps(e.start, e.end, t1, t2)
  }

  /** The entries of a store a filter keeps: all of them, or the slice for the window. */
  function Select(st: Store, flt: TimeFilter): (r: Store)
    ensures forall e :: e in r <==> e in st && Admits(flt, e)
  {
    match flt
    case AnyTime => st
    case During(t1, t2) => Slice(st, t1, t2)
  }

  /** Cell (i, j) holds an entry for `id` that `flt` admits. */
  predicate CellHolds(g: Grid, i: int, j: int, id: TrajId, flt: TimeFilter)
    requires g.Valid() && 0 <= i < g.nx && 0 <= j < g.ny
  {
    exists e :: e in g.cells[i][j] && e.id == id && Admits(flt, e)
  }

  /** The union of the ids the filter keeps over the listed cells. */
  function IdsAt(g: Grid, at: seq<CellId>, flt: TimeFilter): (r: set<TrajId>)
    requires g.Valid()
    requires forall k :: 0 <= k < |at| ==> 0 <= at[k].i < g.nx && 0 <= at[k].j < g.ny
    ensures forall id :: id in r <==> exists k :: 0 <= k < |at| && CellHolds(g, at[k].i, at[k].j, id, flt)
  {
    if at == [] then {}
    else
      var here := Ids(Select(g.cells[at[0].i][at[0].j], flt));
      var rest := IdsAt(g, at[1..], flt);
      assert forall id :: id in here <==> CellHolds(g, at[0].i, at[0].j, id, flt);
      assert forall id :: id in rest <==> exists k :: 1 <= k < |at| && CellHolds(g, at[k].i, at[k].j, id, flt) by {
        forall id | id in rest ensures exists k :: 1 <= k < |at| && CellHolds(g, at[k].i, at[k].j, id, flt) {
          var k :| 0 <= k < |at[1..]| && CellHolds(g, at[1..][k].i, at[1..][k].j, id, flt);
          assert at[1..][k] == at[k + 1];
        }
        forall id, k | 1 <= k < |at| && CellHolds(g, at[k].i, at[k].j, id, flt) ensures id in rest {
          assert at[1..][k - 1] == at[k];
        }
      }
      here + rest
  }

  /** A listed cell holding an admitted entry for `id` puts `id` in the union. */
  lemma IdsAtHas(g: Grid, at: seq<CellId>, flt: TimeFilter, c: CellId, id: TrajId)
    requires g.Valid()
    requires forall k :: 0 <= k < |at| ==> 0 <= at[k].i < g.nx && 0 <= at[k].j < g.ny
    requires c in at && 0 <= c.i < g.nx && 0 <= c.j < g.ny && CellHolds(g, c.i, c.j, id, flt)
    ensures id in IdsAt(g, at, flt)
  {
    var k :| 0 <= k < |at| && at[k] == c;
  }

  /** Every cell of columns i, ..., nx - 1, in scan order. */
  function CellsFrom(i: int, nx: int, ny: int): (r: seq<CellId>)
    requires 0 <= i <= nx && 0 <= ny
    decreases nx - i
    ensures forall c :: c in r <==> i <= c.i < nx && 0 <= c.j < ny
  {
    if i == nx then []
    else
      var column := seq(ny, j => CellId(i, j));
      assert forall c :: c in column <==> c.i == i && 0 <= c.j < ny by {
        forall c: CellId | c.i == i && 0 <= c.j < ny ensures c in column {
          assert column[c.j] == c;
        }
      }
      column + CellsFrom(i + 1, nx, ny)
  }

  /**
    spatial_window_query: the ids of all entries, whatever their times, in the
    cells whose closed rectangle meets the box spanned by (x1, y1) and (x2, y2).
   */
  function SpatialWindowQuery(g: Grid, x1: int, y1: int, x2: int, y2: int): (r: set<TrajId>)
    requires g.Valid()
    ensures forall id :: id in r <==>
              exists i, j :: 0 <= i < g.nx && 0 <= j < g.ny
                             && RectsIntersect(Box(x1, y1, x2, y2), g.frame.CellBox(i, j))
                             && CellHolds(g, i, j, id, AnyTime)
  {
    var b := Box(x1, y1, x2, y2);
    RegionIds(g, b);
    IdsAt(g, ResolveCells(g, Region(b)), AnyTime)
  }

  /** The ids stored in the cells a rectangle meets. */
  lemma RegionIds(g: Grid, b: Rect)
    requires g.Valid()
    ensures forall id :: id in IdsAt(g, ResolveCells(g, Region(b)), AnyTime) <==>
              exists i, j :: 0 <= i < g.nx && 0 <= j < g.ny
                             && RectsIntersect(b, g.frame.CellBox(i, j))
                             && CellHolds(g, i, j, id, AnyTime)
  {
    var at := ResolveCells(g, Region(b));
    forall id, i, j | 0 <= i < g.nx && 0 <= j < g.ny
                      && RectsIntersect(b, g.frame.CellBox(i, j))
                      && CellHolds(g, i, j, id, AnyTime)
      ensures id in IdsAt(g, at, AnyTime)
    {
      IdsAtHas(g, at, AnyTime, CellId(i, j), id);
    }
  }

  /** temporal_window_query: the ids of the entries, in any cell, overlapping the window [t1, t2). */
  function TemporalWindowQuery(g: Grid, t1: int, t2: int): (r: set<TrajId>)
    requires g.Valid()
    ensures forall id :: id in r <==>
              exists i, j :: 0 <= i < g.nx && 0 <= j < g.ny && CellHolds(g, i, j, id, During(t1, t2))
  {
    var at := CellsFrom(0, g.nx, g.ny);
    var r := IdsAt(g, at, During(t1, t2));
    assert forall id, i, j :: 0 <= i < g.nx && 0 <= j < g.ny && CellHolds(g, i, j, id, During(t1, t2)) ==> id in r by {
      forall id, i, j | 0 <= i < g.nx && 0 <= j < g.ny && CellHolds(g, i, j, id, During(t1, t2))
        ensures id in r
      {
        IdsAtHas(g, at, During(t1, t2), CellId(i, j), id);
      }
    }
    r
  }

  /**
    spatiotemporal_window_query: the spatial and the temporal answers computed
    independently and intersected. An id qualifies by having some entry in a
    cell meeting the box and some, possibly different, entry overlapping the window.
   */
  function SpatiotemporalWindowQuery(g: Grid, x1: int, y1: int, x2: int, y2: int, t1: int, t2: int): (r: set<TrajId>)
    requires g.Valid()
    ensures r <= SpatialWindowQuery(g, x1, y1, x2, y2)
    ensures r <= TemporalWindowQuery(g, t1, t2)
    ensures forall id :: id in r <==>
              (exists i, j :: 0 <= i < g.nx && 0 <= j < g.ny
                              && RectsIntersect(Box(x1, y1, x2, y2), g.frame.CellBox(i, j))
                              && CellHolds(g, i, j, id, AnyTime))
              && (exists i, j :: 0 <= i < g.nx && 0 <= j < g.ny && CellHolds(g, i, j, id, During(t1, t2)))
  {
    SpatialWindowQuery(g, x1, y1, x2, y2) * TemporalWindowQuery(g, t1, t2)
  }
}
