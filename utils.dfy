/**
 * `Utils.isPointInRectangle` of src/js/utils.js, over real coordinates.
 * The rectangle is given by two opposite corners in either order and its
 * edges are inclusive.
 */
module Utils {

  type Point = (real, real)
  type Rectangle = (Point, Point)

  function Min(a: real, b: real): (m: real)
    ensures m <= a && m <= b && (m == a || m == b)
  {
    if a <= b then a else b
  }

  function Max(a: real, b: real): (m: real)
    ensures a <= m && b <= m && (m == a || m == b)
  {
    if a <= b then b else a
  }

  /** `x` lies on the closed segment between `a` and `b`, whichever is smaller. */
  predicate Between(a: real, x: real, b: real) {
    (a <= x <= b) || (b <= x <= a)
  }

  /**
   * `isPointInRectangle`: both coordinates lie within the bounds the two
   * corners span, bounds included.
   */
  function IsPointInRectangle(point: Point, rect: Rectangle): (r: bool)
    ensures r <==> Between(rect.0.0, point.0, rect.1.0) && Between(rect.0.1, point.1, rect.1.1)
  {
    var (x, y) := point;
    var ((x1, y1), (x2, y2)) := rect;
    x >= Min(x1, x2) && x <= Max(x1, x2) && y >= Min(y1, y2) && y <= Max(y1, y2)
  }

  /** The order in which the two corners are given does not matter. */
  lemma CornerOrderIrrelevant(point: Point, c1: Point, c2: Point)
    ensures IsPointInRectangle(point, (c1, c2)) == IsPointInRectangle(point, (c2, c1))
  {
  }

  /** Neither does which pair of opposite corners is given. */
  lemma OtherDiagonal(point: Point, c1: Point, c2: Point)
    ensures IsPointInRectangle(point, (c1, c2))
         == IsPointInRectangle(point, ((c1.0, c2.1), (c2.0, c1.1)))
  {
  }

  /** The edges are inclusive: both corners lie inside. */
  lemma CornersInside(c1: Point, c2: Point)
    ensures IsPointInRectangle(c1, (c1, c2)) && IsPointInRectangle(c2, (c1, c2))
  {
  }

  /** A rectangle with equal corners holds exactly that point. */
  lemma DegenerateRectangle(point: Point, c: Point)
    ensures IsPointInRectangle(point, (c, c)) <==> point == c
  {
  }
}
