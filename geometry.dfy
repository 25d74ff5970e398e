/**
 * Planar geometry shared by both tree planners: points, the distance
 * function and axis-aligned obstacle rectangles.
 */
module Geometry {

  /** A workspace position `(x, y)`. */
  type Point = (real, real)

  /**
   * The properties of Euclidean distance the planners rely on.
   * The source computes `math.sqrt` of the squared differences; the model
   * keeps only non-negativity, zero on the diagonal and symmetry.
   */
  ghost predicate IsMetric(d: (Point, Point) -> real)
  {
    && (forall p, q :: 0.0 <= d(p, q))
    && (forall p :: d(p, p) == 0.0)
    && (forall p, q :: d(p, q) == d(q, p))
  }

  /** A distance function with the three properties above. */
  type Metric = d: (Point, Point) -> real | IsMetric(d) witness (p: Point, q: Point) => 0.0

  /** An integer pixel (a sample or a steered point) as a point. */
  function FromPixel(c: (int, int)): Point
  {
    (c.0 as real, c.1 as real)
  }

  /** The position of node `i` of the parallel coordinate lists. */
  function Pos(xs: seq<real>, ys: seq<real>, i: nat): Point
    requires i < |xs| && i < |ys|
  {
    (xs[i], ys[i])
  }

  /** An axis-aligned obstacle `(left, top, width, height)`. */
  datatype Rect = Rect(left: real, top: real, width: real, height: real)

  /**
   * Point containment with a half-open box: the left and top edges belong
   * to the rectangle, the right and bottom edges do not.
   */
  predicate Contains(r: Rect, px: real, py: real)
  {
    r.left <= px < r.left + r.width && r.top <= py < r.top + r.height
  }

  /** Two rectangles share interior area. */
  predicate Overlaps(a: Rect, b: Rect)
  {
    && a.left < b.left + b.width && b.left < a.left + a.width
    && a.top < b.top + b.height && b.top < a.top + a.height
  }

  /** The square of side `side` whose upper-left corner is `corner`. */
  function Square(corner: (int, int), side: real): (r: Rect)
    ensures r.width == side && r.height == side
  {
    Rect(corner.0 as real, corner.1 as real, side, side)
  }

  /** A point lies in the square exactly when it is within `[corner, corner + side)` on both axes. */
  lemma SquareContains(corner: (int, int), side: real, px: real, py: real)
    ensures Contains(Square(corner, side), px, py) <==>
              corner.0 as real <= px < corner.0 as real + side && corner.1 as real <= py < corner.1 as real + side
  {
  }
}
