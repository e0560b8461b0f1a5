/** Field evaluation over a solved grid: the magnetic vector potential Az and
    the flux density B = (∂Az/∂y, −∂Az/∂x) at an arbitrary query point.
    The grid, the nodal solution and the basis provider are inputs; every
    operation is a pure function of them, so a repeated query gives the same
    result and nothing is changed by a query. */
module FieldSolver {
  import opened Mesh
  import opened Bounds
  import opened Interpolation

  datatype Option<T> = None | Some(value: T)

  /** The result of one query: the point lies outside the grid ("missed
      area", reported as not-a-number), no element contains it (the scan
      finds nothing and fails), or a value. */
  datatype Evaluation<T> = MissedArea | ElementNotFound | Value(value: T)

  /** The two in-plane components of the flux density, Bx and By. */
  datatype FluxDensity = FluxDensity(x: real, y: real)

  /** Local basis functions of an element and their partial derivatives, each
      indexed by local node position and evaluated at a point. How they are
      built is not part of this model. */
  datatype BasisProvider = BasisProvider(
    phi: (Element, nat, Point) -> real,
    dx: (Element, nat, Point) -> real,
    dy: (Element, nat, Point) -> real)

  /** The values at `p` of one family of local functions, one per local node of `e`. */
  function LocalValues(f: (Element, nat, Point) -> real, e: Element, p: Point): seq<real>
  {
    seq(|e.nodes|, i requires 0 <= i < |e.nodes| => f(e, i, p))
  }

  /** A square is never negative. */
  lemma SquareNonNegative(v: real)
    ensures v * v >= 0.0
  {
  }

  /** The square of |B|, never negative. */
  function MagnitudeSquared(b: FluxDensity): (m: real)
    ensures m >= 0.0
  {
    SquareNonNegative(b.x);
    SquareNonNegative(b.y);
    b.x * b.x + b.y * b.y
  }

  /** The element's rectangle, spanned by its first and last node, holds `p`:
      it is non-empty and projecting `p` onto it leaves `p` in place. */
  function ElementHas(g: Grid, e: Element, p: Point): (b: bool)
    requires ElementValid(e, |g.nodes|)
    ensures var lo, hi := g.nodes[e.nodes[0]], g.nodes[e.nodes[|e.nodes| - 1]];
            b <==> Ordered(lo, hi) && Clamp(p, lo, hi) == p
  {
    IsPointWithinBounds(p, g.nodes[e.nodes[0]], g.nodes[e.nodes[|e.nodes| - 1]])
  }

  /** The grid's rectangle, spanned by its first and last node, holds `p`:
      it is non-empty and projecting `p` onto it leaves `p` in place. */
  function AreaHas(g: Grid, p: Point): (b: bool)
    requires |g.nodes| > 0
    ensures var lo, hi := g.nodes[0], g.nodes[|g.nodes| - 1];
            b <==> Ordered(lo, hi) && Clamp(p, lo, hi) == p
  {
    IsPointWithinBounds(p, g.nodes[0], g.nodes[|g.nodes| - 1])
  }

  /** Element k contains `p` and no earlier element does. */
  predicate FirstContaining(g: Grid, p: Point, k: nat)
    requires Valid(g)
  {
    && k < |g.elements|
    && ElementHas(g, g.elements[k], p)
    && forall j :: 0 <= j < k ==> !ElementHas(g, g.elements[j], p)
  }

  /** No element of the grid contains `p`. */
  predicate NoElementHas(g: Grid, p: Point)
    requires Valid(g)
  {
    forall j :: 0 <= j < |g.elements| ==> !ElementHas(g, g.elements[j], p)
  }

  /** Linear scan from position `start` for the first element containing `p`. */
  function FindFrom(g: Grid, p: Point, start: nat): (r: Option<nat>)
    requires Valid(g) && start <= |g.elements|
    ensures r.Some? ==> start <= r.value < |g.elements| && ElementHas(g, g.elements[r.value], p)
    ensures r.Some? ==> forall j :: start <= j < r.value ==> !ElementHas(g, g.elements[j], p)
    ensures r.None? ==> forall j :: start <= j < |g.elements| ==> !ElementHas(g, g.elements[j], p)
    decreases |g.elements| - start
  {
    if start == |g.elements| then None
    else if ElementHas(g, g.elements[start], p) then Some(start)
    else FindFrom(g, p, start + 1)
  }

  /** The first element, in element order, whose rectangle holds `p`; None
      when there is none. */
  function FindElementContainingPoint(g: Grid, p: Point): (r: Option<nat>)
    requires Valid(g)
    ensures forall k: nat :: r == Some(k) <==> FirstContaining(g, p, k)
    ensures r.None? <==> NoElementHas(g, p)
  {
    FindFrom(g, p, 0)
  }

  /** There is at most one first containing element. */
  lemma FirstContainingUnique(g: Grid, p: Point, k1: nat, k2: nat)
    requires Valid(g) && FirstContaining(g, p, k1) && FirstContaining(g, p, k2)
    ensures k1 == k2
  {
  }

  /** Az inside element `e`: nodal solution values weighted by the basis functions at `p`. */
  function CalculateSolutionValue(solution: seq<real>, basis: BasisProvider, e: Element, p: Point): real
    requires IndexesIn(e.nodes, |solution|)
  {
    WeightedSum(solution, e.nodes, LocalValues(basis.phi, e, p))
  }

  /** B inside element `e`: Bx weights the nodal values by the y-derivatives,
      By is the negated sum weighted by the x-derivatives. */
  function CalculateBComponents(solution: seq<real>, basis: BasisProvider, e: Element, p: Point): FluxDensity
    requires IndexesIn(e.nodes, |solution|)
  {
    FluxDensity(WeightedSum(solution, e.nodes, LocalValues(basis.dy, e, p)),
                -WeightedSum(solution, e.nodes, LocalValues(basis.dx, e, p)))
  }

  /** Az at `p`. */
  function GetAz(g: Grid, solution: seq<real>, basis: BasisProvider, p: Point): (r: Evaluation<real>)
    requires Valid(g) && |solution| == |g.nodes|
    ensures r.MissedArea? <==> !AreaHas(g, p)
    ensures r.ElementNotFound? <==> AreaHas(g, p) && NoElementHas(g, p)
    ensures forall k: nat :: AreaHas(g, p) && FirstContaining(g, p, k) ==>
              r == Value(CalculateSolutionValue(solution, basis, g.elements[k], p))
  {
    if AreaHas(g, p) then
      match FindElementContainingPoint(g, p)
      case None => ElementNotFound
      case Some(k) => Value(CalculateSolutionValue(solution, basis, g.elements[k], p))
    else
      MissedArea
  }

  /** B at `p`. */
  function GetB(g: Grid, solution: seq<real>, basis: BasisProvider, p: Point): (r: Evaluation<FluxDensity>)
    requires Valid(g) && |solution| == |g.nodes|
    ensures r.MissedArea? <==> !AreaHas(g, p)
    ensures r.ElementNotFound? <==> AreaHas(g, p) && NoElementHas(g, p)
    ensures forall k: nat :: AreaHas(g, p) && FirstContaining(g, p, k) ==>
              r == Value(CalculateBComponents(solution, basis, g.elements[k], p))
  {
    if AreaHas(g, p) then
      match FindElementContainingPoint(g, p)
      case None => ElementNotFound
      case Some(k) => Value(CalculateBComponents(solution, basis, g.elements[k], p))
    else
      MissedArea
  }

  /** The value GetB returns: |B| squared at `p`, with the same missed-area
      and not-found outcomes as B itself. */
  function GetBMagnitudeSquared(g: Grid, solution: seq<real>, basis: BasisProvider, p: Point): (r: Evaluation<real>)
    requires Valid(g) && |solution| == |g.nodes|
    ensures r.MissedArea? <==> !AreaHas(g, p)
    ensures r.ElementNotFound? <==> AreaHas(g, p) && NoElementHas(g, p)
    ensures r.Value? ==> r.value >= 0.0
    ensures r.Value? ==> GetB(g, solution, basis, p).Value?
    ensures r.Value? ==>
              var b := GetB(g, solution, basis, p).value; r.value == b.x * b.x + b.y * b.y
  {
    match GetB(g, solution, basis, p)
    case MissedArea => MissedArea
    case ElementNotFound => ElementNotFound
    case Value(b) => Value(MagnitudeSquared(b))
  }
}
