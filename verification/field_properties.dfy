/** Properties of field evaluation that relate several queries: both
    quantities are evaluated over the same domain and element, depend only on
    the located element's nodal values, depend linearly on the solution, and
    reproduce constants and nodal values under the usual basis-function
    properties. */
module FieldProperties {
  import opened Mesh
  import opened Interpolation
  import opened FieldSolver

  /** Az and B miss, fail to find an element, or yield a value for exactly
      the same query points. */
  lemma GetAzGetBAgree(g: Grid, solution: seq<real>, basis: BasisProvider, p: Point)
    requires Valid(g) && |solution| == |g.nodes|
    ensures GetAz(g, solution, basis, p).MissedArea? <==> GetB(g, solution, basis, p).MissedArea?
    ensures GetAz(g, solution, basis, p).ElementNotFound? <==> GetB(g, solution, basis, p).ElementNotFound?
    ensures GetAz(g, solution, basis, p).Value? <==> GetB(g, solution, basis, p).Value?
  {
  }

  /** B is obtained from the Az evaluation by substituting derivative
      families for the basis: Bx is the Az evaluation with the y-derivatives
      in place of the basis functions, By the negated Az evaluation with the
      x-derivatives. */
  lemma GetBFromDerivativeBases(g: Grid, solution: seq<real>, basis: BasisProvider, p: Point)
    requires Valid(g) && |solution| == |g.nodes|
    ensures GetB(g, solution, basis, p).Value? ==>
              && GetAz(g, solution, basis.(phi := basis.dy), p).Value?
              && GetAz(g, solution, basis.(phi := basis.dx), p).Value?
              && GetB(g, solution, basis, p).value
                 == FluxDensity(GetAz(g, solution, basis.(phi := basis.dy), p).value,
                                -GetAz(g, solution, basis.(phi := basis.dx), p).value)
  {
  }

  /** The solution entries that matter at `p`: two solutions agreeing on the
      nodes of the first element containing `p` give the same Az. */
  lemma GetAzLocal(g: Grid, s1: seq<real>, s2: seq<real>, basis: BasisProvider, p: Point)
    requires Valid(g) && |s1| == |g.nodes| && |s2| == |g.nodes|
    requires forall k: nat :: FirstContaining(g, p, k) ==> AgreeOn(s1, s2, g.elements[k].nodes)
    ensures GetAz(g, s1, basis, p) == GetAz(g, s2, basis, p)
  {
    var r := FindElementContainingPoint(g, p);
    if AreaHas(g, p) && r.Some? {
      var e := g.elements[r.value];
      WeightedSumLocal(s1, s2, e.nodes, LocalValues(basis.phi, e, p));
    }
  }

  /** Two solutions agreeing on the nodes of the first element containing
      `p` give the same B. */
  lemma GetBLocal(g: Grid, s1: seq<real>, s2: seq<real>, basis: BasisProvider, p: Point)
    requires Valid(g) && |s1| == |g.nodes| && |s2| == |g.nodes|
    requires forall k: nat :: FirstContaining(g, p, k) ==> AgreeOn(s1, s2, g.elements[k].nodes)
    ensures GetB(g, s1, basis, p) == GetB(g, s2, basis, p)
  {
    var r := FindElementContainingPoint(g, p);
    if AreaHas(g, p) && r.Some? {
      var e := g.elements[r.value];
      WeightedSumLocal(s1, s2, e.nodes, LocalValues(basis.dx, e, p));
      WeightedSumLocal(s1, s2, e.nodes, LocalValues(basis.dy, e, p));
    }
  }

  /** Az is linear in the solution: the outcome kind does not depend on the
      solution, and the value for a * s1 + s2 is a * Az(s1) + Az(s2). */
  lemma GetAzLinear(g: Grid, a: real, s1: seq<real>, s2: seq<real>, basis: BasisProvider, p: Point)
    requires Valid(g) && |s1| == |g.nodes| && |s2| == |g.nodes|
    ensures !GetAz(g, s1, basis, p).Value? ==>
              GetAz(g, Axpy(a, s1, s2), basis, p) == GetAz(g, s1, basis, p) == GetAz(g, s2, basis, p)
    ensures GetAz(g, s1, basis, p).Value? ==>
              && GetAz(g, s2, basis, p).Value?
              && GetAz(g, Axpy(a, s1, s2), basis, p).Value?
              && GetAz(g, Axpy(a, s1, s2), basis, p).value
                 == ScaleAdd(a, GetAz(g, s1, basis, p).value, GetAz(g, s2, basis, p).value)
  {
    var r := FindElementContainingPoint(g, p);
    if AreaHas(g, p) && r.Some? {
      var e := g.elements[r.value];
      assert FirstContaining(g, p, r.value);
      SolutionValueLinear(a, s1, s2, basis, e, p);
      assert GetAz(g, s1, basis, p) == Value(CalculateSolutionValue(s1, basis, e, p));
      assert GetAz(g, s2, basis, p) == Value(CalculateSolutionValue(s2, basis, e, p));
      assert GetAz(g, Axpy(a, s1, s2), basis, p) == Value(CalculateSolutionValue(Axpy(a, s1, s2), basis, e, p));
    }
  }

  /** Within one element, Az is linear in the solution. */
  lemma SolutionValueLinear(a: real, s1: seq<real>, s2: seq<real>, basis: BasisProvider, e: Element, p: Point)
    requires |s1| == |s2| && IndexesIn(e.nodes, |s1|)
    ensures CalculateSolutionValue(Axpy(a, s1, s2), basis, e, p)
         == ScaleAdd(a, CalculateSolutionValue(s1, basis, e, p), CalculateSolutionValue(s2, basis, e, p))
  {
    WeightedSumLinear(a, s1, s2, e.nodes, LocalValues(basis.phi, e, p));
  }

  /** B is linear in the solution, component by component. */
  lemma GetBLinear(g: Grid, a: real, s1: seq<real>, s2: seq<real>, basis: BasisProvider, p: Point)
    requires Valid(g) && |s1| == |g.nodes| && |s2| == |g.nodes|
    ensures !GetB(g, s1, basis, p).Value? ==>
              GetB(g, Axpy(a, s1, s2), basis, p) == GetB(g, s1, basis, p) == GetB(g, s2, basis, p)
    ensures GetB(g, s1, basis, p).Value? ==>
              && GetB(g, s2, basis, p).Value?
              && GetB(g, Axpy(a, s1, s2), basis, p).Value?
              && GetB(g, Axpy(a, s1, s2), basis, p).value
                 == Combine(a, GetB(g, s1, basis, p).value, GetB(g, s2, basis, p).value)
  {
    var r := FindElementContainingPoint(g, p);
    if AreaHas(g, p) && r.Some? {
      var e := g.elements[r.value];
      assert FirstContaining(g, p, r.value);
      BComponentsLinear(a, s1, s2, basis, e, p);
      assert GetB(g, s1, basis, p) == Value(CalculateBComponents(s1, basis, e, p));
      assert GetB(g, s2, basis, p) == Value(CalculateBComponents(s2, basis, e, p));
      assert GetB(g, Axpy(a, s1, s2), basis, p) == Value(CalculateBComponents(Axpy(a, s1, s2), basis, e, p));
    }
  }

  /** The value a * v1 + v2. */
  function ScaleAdd(a: real, v1: real, v2: real): real
  {
    a * v1 + v2
  }

  /** The flux density a * b1 + b2. */
  function Combine(a: real, b1: FluxDensity, b2: FluxDensity): FluxDensity
  {
    FluxDensity(ScaleAdd(a, b1.x, b2.x), ScaleAdd(a, b1.y, b2.y))
  }

  /** Within one element, B is linear in the solution. */
  lemma BComponentsLinear(a: real, s1: seq<real>, s2: seq<real>, basis: BasisProvider, e: Element, p: Point)
    requires |s1| == |s2| && IndexesIn(e.nodes, |s1|)
    ensures CalculateBComponents(Axpy(a, s1, s2), basis, e, p)
         == Combine(a, CalculateBComponents(s1, basis, e, p), CalculateBComponents(s2, basis, e, p))
  {
    var wx := LocalValues(basis.dx, e, p);
    WeightedSumLinear(a, s1, s2, e.nodes, wx);
    WeightedSumLinear(a, s1, s2, e.nodes, LocalValues(basis.dy, e, p));
    var x1 := WeightedSum(s1, e.nodes, wx);
    assert a * -x1 == -(a * x1);
  }

  /** Partition of unity: when the basis functions of the located element sum
      to one at `p` and the solution is constant on its nodes, Az is that
      constant. */
  lemma GetAzConstant(g: Grid, solution: seq<real>, basis: BasisProvider, p: Point, k: nat, c: real)
    requires Valid(g) && |solution| == |g.nodes|
    requires AreaHas(g, p) && FirstContaining(g, p, k)
    requires Total(LocalValues(basis.phi, g.elements[k], p)) == 1.0
    requires forall j :: 0 <= j < |g.elements[k].nodes| ==> solution[g.elements[k].nodes[j]] == c
    ensures GetAz(g, solution, basis, p) == Value(c)
  {
    var e := g.elements[k];
    var w := LocalValues(basis.phi, e, p);
    WeightedSumConstant(solution, e.nodes, w, c);
    assert CalculateSolutionValue(solution, basis, e, p) == c * Total(w) == c;
  }

  /** A constant potential has no flux: when the derivatives of the located
      element's basis functions each sum to zero at `p` and the solution is
      constant on its nodes, B is zero. */
  lemma GetBConstantVanishes(g: Grid, solution: seq<real>, basis: BasisProvider, p: Point, k: nat, c: real)
    requires Valid(g) && |solution| == |g.nodes|
    requires AreaHas(g, p) && FirstContaining(g, p, k)
    requires Total(LocalValues(basis.dx, g.elements[k], p)) == 0.0
    requires Total(LocalValues(basis.dy, g.elements[k], p)) == 0.0
    requires forall j :: 0 <= j < |g.elements[k].nodes| ==> solution[g.elements[k].nodes[j]] == c
    ensures GetB(g, solution, basis, p) == Value(FluxDensity(0.0, 0.0))
  {
    var e := g.elements[k];
    WeightedSumConstant(solution, e.nodes, LocalValues(basis.dx, e, p), c);
    WeightedSumConstant(solution, e.nodes, LocalValues(basis.dy, e, p), c);
    assert CalculateBComponents(solution, basis, e, p) == FluxDensity(0.0, 0.0);
  }

  /** Nodal interpolation: when the located element's basis functions at `p`
      are one for local node i and zero for the others (as at the node's own
      position), Az is the solution value at that node. */
  lemma GetAzAtNode(g: Grid, solution: seq<real>, basis: BasisProvider, p: Point, k: nat, i: nat)
    requires Valid(g) && |solution| == |g.nodes|
    requires AreaHas(g, p) && FirstContaining(g, p, k)
    requires i < |g.elements[k].nodes| && basis.phi(g.elements[k], i, p) == 1.0
    requires forall j: nat :: j < |g.elements[k].nodes| && j != i ==> basis.phi(g.elements[k], j, p) == 0.0
    ensures GetAz(g, solution, basis, p) == Value(solution[g.elements[k].nodes[i]])
  {
    var e := g.elements[k];
    WeightedSumKronecker(solution, e.nodes, LocalValues(basis.phi, e, p), i);
  }
}
