/** The immutable finite-element grid consumed by field evaluation: an ordered
    sequence of 2D nodes and an ordered sequence of elements, each element an
    ordered tuple of node indices plus a material id. A node's position in the
    sequence is its only identity. */
module Mesh {

  /** A point of the plane (a grid node or a query point). */
  datatype Point = Point(x: real, y: real)

  /** An element: its node indices in local order (first = lower-left corner,
      last = upper-right corner for the axis-aligned bilinear cells the grid
      holds) and the id of its material. */
  datatype Element = Element(nodes: seq<nat>, material: nat)

  /** The grid, built once and read-only afterwards. */
  datatype Grid = Grid(nodes: seq<Point>, elements: seq<Element>)

  /** Every index in `indexes` addresses one of `n` entries. */
  predicate IndexesIn(indexes: seq<nat>, n: nat)
  {
    forall j :: 0 <= j < |indexes| ==> indexes[j] < n
  }

  /** An element has a first and a last node, and all its node indices are
      valid positions in a node sequence of length `n`. */
  predicate ElementValid(e: Element, n: nat)
  {
    |e.nodes| > 0 && IndexesIn(e.nodes, n)
  }

  /** The structural invariant of a built grid: a first and a last node exist,
      and every element references valid node positions. */
  predicate Valid(g: Grid)
  {
    && |g.nodes| > 0
    && forall i :: 0 <= i < |g.elements| ==> ElementValid(g.elements[i], |g.nodes|)
  }
}
