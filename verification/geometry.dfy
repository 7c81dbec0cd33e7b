/** Planar points and axis-aligned rectangles, the geometry the kd-tree
    symbol table relies on (the roles of Point2D and RectHV). Coordinates are
    exact reals, so squared distances and comparisons involve no rounding. A
    rectangle side may be infinite, which is how the root's region (the whole
    plane) and unbounded query rectangles are written. */
module Geometry {
  import opened Wrappers

  /** One side of a rectangle: `None` is minus infinity for a lower side and
      plus infinity for an upper side. */
  type Bound = Option<real>

  predicate AtLeast(c: real, lo: Bound) {
    lo.None? || lo.value <= c
  }

  predicate AtMost(c: real, hi: Bound) {
    hi.None? || c <= hi.value
  }

  /** `lo <= hi` on the extended line. */
  predicate NotAbove(lo: Bound, hi: Bound) {
    lo.None? || hi.None? || lo.value <= hi.value
  }

  function Square(d: real): real {
    d * d
  }

  lemma ProductNonneg(a: real, b: real)
    requires 0.0 <= a && 0.0 <= b
    ensures 0.0 <= a * b
  {
  }

  lemma SquareNonneg(d: real)
    ensures 0.0 <= Square(d)
  {
    if d < 0.0 {
      ProductNonneg(-d, -d);
      assert (-d) * (-d) == d * d;
    } else {
      ProductNonneg(d, d);
    }
  }

  /** Squaring ignores the sign of a difference. */
  lemma SquareSym(a: real, b: real)
    ensures Square(a - b) == Square(b - a)
  {
    assert (a - b) * (a - b) == (b - a) * (b - a);
  }

  /** Squaring is monotone on the non-negative reals. */
  lemma SquareMonotone(a: real, b: real)
    requires 0.0 <= a <= b
    ensures Square(a) <= Square(b)
  {
    ProductNonneg(b - a, a);
    ProductNonneg(b - a, b);
    assert (b - a) * a + (b - a) * b == b * b - a * a;
  }

  datatype Point = Point(x: real, y: real) {

    /** Squared Euclidean distance. */
    function DistSq(that: Point): real {
      Square(x - that.x) + Square(y - that.y)
    }
  }

  /** The coordinate a node splits on: x when `vertical`, y otherwise. */
  function Coord(p: Point, vertical: bool): real {
    if vertical then p.x else p.y
  }

  /** Signed offset of `c` from the interval [lo, hi]: zero inside it. */
  function Gap(c: real, lo: Bound, hi: Bound): (g: real)
    ensures AtLeast(c, lo) && AtMost(c, hi) ==> g == 0.0
  {
    if lo.Some? && c < lo.value then c - lo.value
    else if hi.Some? && c > hi.value then c - hi.value
    else 0.0
  }

  datatype Rect = Rect(xmin: Bound, ymin: Bound, xmax: Bound, ymax: Bound) {

    /** Containment of a point, boundary included. */
    predicate Contains(p: Point) {
      AtLeast(p.x, xmin) && AtMost(p.x, xmax) && AtLeast(p.y, ymin) && AtMost(p.y, ymax)
    }

    /** Intersection with another rectangle, touching boundaries included. */
    predicate Intersects(that: Rect) {
      && NotAbove(that.xmin, xmax) && NotAbove(that.ymin, ymax)
      && NotAbove(xmin, that.xmax) && NotAbove(ymin, that.ymax)
    }

    /** Squared distance from `q` to the closest point of the rectangle. */
    function DistSq(q: Point): (d: real)
      ensures Contains(q) ==> d == 0.0
    {
      Square(Gap(q.x, xmin, xmax)) + Square(Gap(q.y, ymin, ymax))
    }
  }

  /** The whole plane: the region of the root. */
  const Plane := Rect(None, None, None, None)

  /** The part of `r` on the left of (when `vertical`) or below `p`. */
  function LowHalf(r: Rect, p: Point, vertical: bool): Rect {
    if vertical then Rect(r.xmin, r.ymin, Some(p.x), r.ymax)
    else Rect(r.xmin, r.ymin, r.xmax, Some(p.y))
  }

  /** The part of `r` on the right of (when `vertical`) or above `p`. */
  function HighHalf(r: Rect, p: Point, vertical: bool): Rect {
    if vertical then Rect(Some(p.x), r.ymin, r.xmax, r.ymax)
    else Rect(r.xmin, Some(p.y), r.xmax, r.ymax)
  }

  /** Every point lies in the whole plane. */
  lemma PlaneContainsAll(p: Point)
    ensures Plane.Contains(p)
  {
  }

  /** Cutting a region at one of its own points gives two sub-regions that
      together hold exactly the points of the region, split by the strict
      comparison on the axis (ties fall in the high half, and the splitting
      line belongs to both). */
  lemma HalvesSplit(r: Rect, p: Point, vertical: bool, k: Point)
    requires r.Contains(p)
    ensures LowHalf(r, p, vertical).Contains(k) ==> r.Contains(k)
    ensures HighHalf(r, p, vertical).Contains(k) ==> r.Contains(k)
    ensures r.Contains(k) && Coord(k, vertical) < Coord(p, vertical) ==> LowHalf(r, p, vertical).Contains(k)
    ensures r.Contains(k) && Coord(k, vertical) >= Coord(p, vertical) ==> HighHalf(r, p, vertical).Contains(k)
  {
  }

  /** A point shared by two rectangles makes them intersect: pruning a region
      that does not intersect the query can drop no point of the query. */
  lemma SharedPointIntersects(a: Rect, b: Rect, k: Point)
    requires a.Contains(k) && b.Contains(k)
    ensures a.Intersects(b)
  {
  }

  /** The squared distance to a rectangle is at most the squared distance to
      any point inside it: pruning a region no closer than the best candidate
      can drop no closer point. */
  lemma {:induction false} RectDistBelow(r: Rect, k: Point, q: Point)
    requires r.Contains(k)
    ensures r.DistSq(q) <= k.DistSq(q)
  {
    GapBelow(q.x, k.x, r.xmin, r.xmax);
    GapBelow(q.y, k.y, r.ymin, r.ymax);
  }

  lemma GapBelow(c: real, k: real, lo: Bound, hi: Bound)
    requires AtLeast(k, lo) && AtMost(k, hi)
    ensures Square(Gap(c, lo, hi)) <= Square(c - k)
  {
    if lo.Some? && c < lo.value {
      SquareMonotone(lo.value - c, k - c);
      SquareSym(c, lo.value);
      SquareSym(c, k);
    } else if hi.Some? && c > hi.value {
      SquareMonotone(c - hi.value, c - k);
    } else {
      SquareNonneg(c - k);
    }
  }
}
