/**
 * Plane geometry of the quadtree: points, half-open axis-aligned regions and
 * the midpoint split of a region into four quadrants. Coordinates are exact
 * reals, so the midpoint `(a + b) / 2` is computed without rounding.
 */
module Geometry {

  datatype Point = Point(x: real, y: real)

  /** A node's boundary; the fields follow the source's tuple order
      (x_min, y_min, x_max, y_max). */
  datatype Region = Region(xMin: real, yMin: real, xMax: real, yMax: real)

  /** A region with positive width and height. */
  predicate NonEmpty(r: Region) {
    r.xMin < r.xMax && r.yMin < r.yMax
  }

  /** Membership in the half-open rectangle [xMin, xMax) x [yMin, yMax):
      the lower edges belong to the region, the upper edges do not. */
  predicate InBoundary(r: Region, p: Point): (b: bool)
    ensures p.x == r.xMax || p.y == r.yMax ==> !b
    ensures p == Point(r.xMin, r.yMin) ==> (b <==> NonEmpty(r))
  {
    r.xMin <= p.x < r.xMax && r.yMin <= p.y < r.yMax
  }

  /** The four regions a node is divided into, in the order the source tries them. */
  datatype Quadrants = Quadrants(nw: Region, ne: Region, sw: Region, se: Region)

  /** `child` has half the width and half the height of `parent`. */
  predicate HalfSize(child: Region, parent: Region) {
    && child.xMax - child.xMin == (parent.xMax - parent.xMin) / 2.0
    && child.yMax - child.yMin == (parent.yMax - parent.yMin) / 2.0
  }

  /** How many of the four quadrants contain `p`. */
  function Covering(q: Quadrants, p: Point): nat {
    (if InBoundary(q.nw, p) then 1 else 0) +
    (if InBoundary(q.ne, p) then 1 else 0) +
    (if InBoundary(q.sw, p) then 1 else 0) +
    (if InBoundary(q.se, p) then 1 else 0)
  }

  /**
   * Splits a region at the midpoints of its two axes. The quadrants tile the
   * region: a point of the region lies in exactly one quadrant, a point
   * outside it lies in none, and a region of positive size has quadrants of
   * positive size and half its width and height.
   */
  function Split(r: Region): (q: Quadrants)
    ensures forall p :: Covering(q, p) == (if InBoundary(r, p) then 1 else 0)
    ensures NonEmpty(r) ==>
      NonEmpty(q.nw) && NonEmpty(q.ne) && NonEmpty(q.sw) && NonEmpty(q.se)
    ensures HalfSize(q.nw, r) && HalfSize(q.ne, r) && HalfSize(q.sw, r) && HalfSize(q.se, r)
  {
    var xMid := (r.xMin + r.xMax) / 2.0;
    var yMid := (r.yMin + r.yMax) / 2.0;
    Quadrants(
      Region(r.xMin, yMid, xMid, r.yMax),
      Region(xMid, yMid, r.xMax, r.yMax),
      Region(r.xMin, r.yMin, xMid, yMid),
      Region(xMid, r.yMin, r.xMax, yMid))
  }
}
