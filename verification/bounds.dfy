/** The closed axis-aligned rectangle test used both for the whole grid and
    for a single element. */
module Bounds {
  import opened Mesh

  /** `p` lies in the closed rectangle spanned by `lowerLeft` and
      `upperRight`; all four bounds are inclusive. Equivalently, the
      rectangle is non-empty and projecting `p` onto it leaves `p` in place. */
  function IsPointWithinBounds(p: Point, lowerLeft: Point, upperRight: Point): (b: bool)
    ensures b <==> Ordered(lowerLeft, upperRight) && Clamp(p, lowerLeft, upperRight) == p
  {
    p.x >= lowerLeft.x && p.x <= upperRight.x && p.y >= lowerLeft.y && p.y <= upperRight.y
  }

  /** The rectangle spanned by the two corners is non-empty. */
  predicate Ordered(lowerLeft: Point, upperRight: Point)
  {
    lowerLeft.x <= upperRight.x && lowerLeft.y <= upperRight.y
  }

  /** Nearest value to `v` inside the closed interval [lo, hi]. */
  function ClampCoordinate(v: real, lo: real, hi: real): (c: real)
    requires lo <= hi
    ensures lo <= c <= hi
    ensures lo <= v <= hi ==> c == v
    ensures v < lo ==> c == lo
    ensures v > hi ==> c == hi
  {
    if v < lo then lo else if v > hi then hi else v
  }

  /** Projection of `p` onto the rectangle, coordinate by coordinate: an
      independent description of the rectangle as the set of its own fixed
      points. */
  function Clamp(p: Point, lowerLeft: Point, upperRight: Point): (q: Point)
    requires Ordered(lowerLeft, upperRight)
    ensures lowerLeft.x <= q.x <= upperRight.x && lowerLeft.y <= q.y <= upperRight.y
  {
    Point(ClampCoordinate(p.x, lowerLeft.x, upperRight.x),
          ClampCoordinate(p.y, lowerLeft.y, upperRight.y))
  }

  /** The bounds are inclusive: all four corners and every point of the four
      edges belong to the rectangle. */
  lemma BoundaryWithinBounds(lowerLeft: Point, upperRight: Point, t: real, s: real)
    requires Ordered(lowerLeft, upperRight)
    requires lowerLeft.x <= t <= upperRight.x && lowerLeft.y <= s <= upperRight.y
    ensures IsPointWithinBounds(lowerLeft, lowerLeft, upperRight)
    ensures IsPointWithinBounds(upperRight, lowerLeft, upperRight)
    ensures IsPointWithinBounds(Point(t, lowerLeft.y), lowerLeft, upperRight)
    ensures IsPointWithinBounds(Point(t, upperRight.y), lowerLeft, upperRight)
    ensures IsPointWithinBounds(Point(lowerLeft.x, s), lowerLeft, upperRight)
    ensures IsPointWithinBounds(Point(upperRight.x, s), lowerLeft, upperRight)
  {
  }

  /** With the corners given in the wrong order nothing is within the bounds. */
  lemma InvertedBoundsEmpty(p: Point, lowerLeft: Point, upperRight: Point)
    requires !Ordered(lowerLeft, upperRight)
    ensures !IsPointWithinBounds(p, lowerLeft, upperRight)
  {
  }
}
