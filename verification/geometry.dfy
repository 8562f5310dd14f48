/**
  Integer plane geometry used by the grid index: points, closed axis-aligned
  rectangles, the normalised query box, and the two kinds of shape the index
  resolves against its cells (a set of points, or a rectangle).

  Intersection is closed: touching an edge or a corner counts, as it does for
  the planar `intersects` predicate the index is written against.
 */
module Geometry {

  datatype Point = Point(x: int, y: int)

  /** The closed rectangle [xlo, xhi] x [ylo, yhi]. */
  datatype Rect = Rect(xlo: int, ylo: int, xhi: int, yhi: int) {

    predicate Valid() {
      xlo <= xhi && ylo <= yhi
    }

    predicate Contains(p: Point) {
      xlo <= p.x <= xhi && ylo <= p.y <= yhi
    }

    /** Every point of this rectangle is a point of `other`. */
    predicate Within(other: Rect) {
      other.xlo <= xlo && xhi <= other.xhi && other.ylo <= ylo && yhi <= other.yhi
    }
  }

  function Min(a: int, b: int): int { if a <= b then a else b }

  function Max(a: int, b: int): int { if a <= b then b else a }

  /** The query window spanned by two opposite corners given in any order. */
  function Box(x1: int, y1: int, x2: int, y2: int): (r: Rect)
    ensures r.Valid()
    ensures r.Contains(Point(x1, y1)) && r.Contains(Point(x2, y2))
    ensures r.Contains(Point(x1, y2)) && r.Contains(Point(x2, y1))
    // it is the smallest rectangle holding both corners
    ensures forall s: Rect :: s.Contains(Point(x1, y1)) && s.Contains(Point(x2, y2)) ==> r.Within(s)
  {
    Rect(Min(x1, x2), Min(y1, y2), Max(x1, x2), Max(y1, y2))
  }

  /** Closed rectangles meet when their projections on both axes meet. */
  predicate RectsIntersect(a: Rect, b: Rect) {
    a.xlo <= b.xhi && b.xlo <= a.xhi && a.ylo <= b.yhi && b.ylo <= a.yhi
  }

  /** A shape the grid resolves to cells: a multipoint or a rectangle. */
  datatype Shape = Points(pts: set<Point>) | Region(rect: Rect)

  predicate Intersects(s: Shape, cell: Rect) {
    match s
    case Points(pts) => exists p :: p in pts && cell.Contains(p)
    case Region(r) => RectsIntersect(r, cell)
  }

  /** The footprint of a movement segment: the union of its two endpoints. */
  function Footprint(p: Point, q: Point): (s: Shape)
    ensures forall cell: Rect :: Intersects(s, cell) <==> cell.Contains(p) || cell.Contains(q)
  {
    Points({p, q})
  }

  /** Two valid rectangles intersect exactly when they share a point. */
  lemma IntersectIffCommonPoint(a: Rect, b: Rect)
    requires a.Valid() && b.Valid()
    ensures RectsIntersect(a, b) <==> exists p :: a.Contains(p) && b.Contains(p)
  {
    if RectsIntersect(a, b) {
      var w := Point(Max(a.xlo, b.xlo), Max(a.ylo, b.ylo));
      assert a.Contains(w) && b.Contains(w);
    }
  }
}
