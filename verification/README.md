# FEM2 field evaluation — a Dafny model

This project models the post-processing stage of the FEM2 axisymmetric
magnetostatic solver: given the solved grid and the nodal solution vector, it
evaluates the magnetic vector potential Az and the flux density B = (Bx, By)
at an arbitrary query point (the `Solver` class of
`FEM2/TwoDimensional/Solver.cs`).

A query runs in three steps, each modelled as a pure function:

1. **Domain check** (`FieldSolver.AreaHas`): the point must lie in the closed
   axis-aligned rectangle spanned by the grid's first and last node
   (`Bounds.IsPointWithinBounds`, all four bounds inclusive). Otherwise the
   query yields `MissedArea`, the model of the source's not-a-number result.
2. **Element location** (`FieldSolver.FindElementContainingPoint`): a linear
   scan picks the first element, in element order, whose rectangle (spanned
   by its first and last node) holds the point. When none does, the source's
   `First` call throws; the model yields `ElementNotFound`.
3. **Interpolation** (`Interpolation.WeightedSum`): Az is the sum, over the
   element's local nodes, of the nodal solution value times the basis
   function at the point; Bx uses the y-derivatives of the basis, and By is
   the negated sum using the x-derivatives.

Modules: `Mesh` (nodes, elements, grid and its structural invariant),
`Bounds` (the rectangle test), `Interpolation` (the weighted sum and its
algebra), `FieldSolver` (the evaluator itself) and `FieldProperties`
(lemmas relating several queries).

The basis functions and their derivatives are parameters (`BasisProvider`:
three functions of element, local index and point); how they are built is
not part of this model. Coordinates and values are exact `real`s. Every
operation is a pure function of the grid, the solution and the basis, so the
source's guarantees that evaluation does not change the grid or the
solution, and that repeating a query gives the same result, hold by
construction.

The grid's structural invariant (`Mesh.Valid`: at least one node; every
element has at least one node and only valid node indices) and a solution
vector with exactly one entry per node are preconditions. The evaluator
itself checks nothing. It throws when the grid has no nodes, when a query
inside the grid rectangle reaches an element whose first or last node index
is out of range, and when the located element addresses a missing solution
entry. The model requires the whole grid to be well formed and the solution
to have exactly one entry per node. This also excludes some grids and
solutions on which the evaluator returns normally, as listed under
"## Left out".

## Model

| member | source | states |
|---|---|---|
| Bounds.IsPointWithinBounds | FEM2/TwoDimensional/Solver.cs:98-101 | a point passes the bounds test exactly when the rectangle is non-empty and projecting the point onto the closed rectangle leaves it where it is |
| Bounds.BoundaryWithinBounds | FEM2/TwoDimensional/Solver.cs:98-101 | all four bounds are inclusive: both corners and every point of the four edges pass the test |
| Bounds.InvertedBoundsEmpty | FEM2/TwoDimensional/Solver.cs:98-101 | with lower-left and upper-right given out of order no point passes the test |
| FieldSolver.AreaHas | FEM2/TwoDimensional/Solver.cs:96 | the point is in the grid's domain exactly when the rectangle spanned by the first and last node is non-empty and projecting the point onto it leaves it in place |
| FieldSolver.ElementHas | FEM2/TwoDimensional/Solver.cs:95 | the point is in an element exactly when the rectangle spanned by the element's first and last node is non-empty and projecting the point onto it leaves it in place |
| FieldSolver.FindFrom | FEM2/TwoDimensional/Solver.cs:65 | the scan from a start position returns an element at or after it that contains the point, with no containing element between start and it; it returns nothing only when no element from start on contains the point |
| FieldSolver.FindElementContainingPoint | FEM2/TwoDimensional/Solver.cs:63-66 | the result is element k exactly when k contains the point and no earlier element does (first match); it is absent exactly when no element contains the point |
| FieldSolver.FirstContainingUnique | FEM2/TwoDimensional/Solver.cs:65 | the first-match element is unique, so the scan's result is well defined even for overlapping elements |
| FieldSolver.GetAz | FEM2/TwoDimensional/Solver.cs:26-41 | outside the grid rectangle the result is the missed-area marker and never a value; inside with no containing element it is the not-found failure; otherwise it is the interpolated value on the first containing element |
| FieldSolver.GetB | FEM2/TwoDimensional/Solver.cs:43-61 | the same three outcomes as Az under the same conditions; a value is the (Bx, By) pair computed on the first containing element |
| Interpolation.WeightedSum | FEM2/TwoDimensional/Solver.cs:70-72 | definition: Σ over local index i of solution[indexes[i]] × weights[i], accumulated in local order |
| FieldSolver.CalculateSolutionValue | FEM2/TwoDimensional/Solver.cs:68-73 | definition: Az in element e is Σ over local index i of solution[e.nodes[i]] × phi(e, i, p) |
| FieldSolver.CalculateBComponents | FEM2/TwoDimensional/Solver.cs:75-86 | definition: Bx is Σ over local index i of solution[e.nodes[i]] × dy(e, i, p), and By is −Σ over i of solution[e.nodes[i]] × dx(e, i, p) |
| FieldSolver.MagnitudeSquared | FEM2/TwoDimensional/Solver.cs:53 | Bx² + By², never negative |
| FieldSolver.GetBMagnitudeSquared | FEM2/TwoDimensional/Solver.cs:43-61 | the value GetB returns, squared: the same missed-area and not-found outcomes as B, otherwise Bx² + By² of the located element's B, never negative |
| Interpolation.WeightedSumConcat | FEM2/TwoDimensional/Solver.cs:70-72 | the sum over a concatenation of local node lists is the sum of the two partial sums, so the result has exactly one term per local node |
| Interpolation.WeightedSumSingle | FEM2/TwoDimensional/Solver.cs:71 | one local node contributes its solution value times its weight |
| Interpolation.WeightedSumLocal | FEM2/TwoDimensional/Solver.cs:70-72 | solution entries the element's node indices do not address do not affect the sum |
| Interpolation.WeightedSumLinear | FEM2/TwoDimensional/Solver.cs:70-72 | the sum for a * s1 + s2 is a times the sum for s1 plus the sum for s2 |
| Interpolation.WeightedSumConstant | FEM2/TwoDimensional/Solver.cs:70-72 | a solution constant c on the addressed nodes gives c times the total weight |
| Interpolation.WeightedSumZeroWeights | FEM2/TwoDimensional/Solver.cs:70-72 | all-zero weights give zero |
| Interpolation.WeightedSumKronecker | FEM2/TwoDimensional/Solver.cs:70-72 | weights forming the unit vector at local index k give the solution value at the k-th node |
| FieldProperties.GetAzGetBAgree | FEM2/TwoDimensional/Solver.cs:28-30 | Az and B miss, fail to find an element, or yield a value at exactly the same points |
| FieldProperties.GetBFromDerivativeBases | FEM2/TwoDimensional/Solver.cs:75-86 | Bx is the Az evaluation with the y-derivatives in place of the basis functions, By the negated Az evaluation with the x-derivatives |
| FieldProperties.GetAzLocal | FEM2/TwoDimensional/Solver.cs:68-73 | two solutions that agree on the nodes of the first containing element give the same Az |
| FieldProperties.GetBLocal | FEM2/TwoDimensional/Solver.cs:75-86 | two solutions that agree on the nodes of the first containing element give the same B |
| FieldProperties.SolutionValueLinear | FEM2/TwoDimensional/Solver.cs:68-73 | within one element Az is linear in the solution vector |
| FieldProperties.GetAzLinear | FEM2/TwoDimensional/Solver.cs:26-41 | the outcome kind of an Az query does not depend on the solution, and the value for a * s1 + s2 is a * Az(s1) + Az(s2) |
| FieldProperties.BComponentsLinear | FEM2/TwoDimensional/Solver.cs:75-86 | within one element both B components are linear in the solution vector, the sign of By included |
| FieldProperties.GetBLinear | FEM2/TwoDimensional/Solver.cs:43-61 | the outcome kind of a B query does not depend on the solution, and the value for a * s1 + s2 is a * B(s1) + B(s2) |
| FieldProperties.GetAzConstant | FEM2/TwoDimensional/Solver.cs:68-73 | when the located element's basis functions sum to one at the point (partition of unity) and the solution is constant c on its nodes, Az is c |
| FieldProperties.GetBConstantVanishes | FEM2/TwoDimensional/Solver.cs:75-86 | when the basis derivatives each sum to zero at the point and the solution is constant on the element's nodes, B is zero |
| FieldProperties.GetAzAtNode | FEM2/TwoDimensional/Solver.cs:68-73 | when the basis functions at the point are one for local node i and zero for the others, Az is the solution value at that node |

## Left out

- `FEM2/Program.cs`: file reading of nodes, materials, elements and boundaries, the material constants, and the wiring of the global assembler, boundary eliminator and preconditioned conjugate-gradient solver. The sources of those components are not part of this model, so the solution vector is an input.
- Console reporting through `CourseHolder` (values and the missed-area notice): I/O; the model returns the outcome instead of printing it.
- |B| = sqrt(Bx² + By²): no square root on exact reals; GetB returns the pair (Bx, By), and `FieldSolver.GetBMagnitudeSquared` gives the square of the value the source returns.
- Floating point: not-a-number is the `MissedArea` outcome, and rounding and the summation order of `Sum()` are not modelled (exact real arithmetic).
- The construction of the local basis functions and their derivatives: they are abstract parameters, so partition of unity and the nodal property appear as hypotheses of the lemmas that need them. The length of the basis-function array is not modelled, so an element with more nodes than basis functions cannot fail as `ElementAt` would.
- Malformed grids and solution vectors of the wrong length: excluded by the preconditions `Mesh.Valid` and `|solution| == |g.nodes|` instead of modelled. The evaluator's index errors are therefore not modelled as failures. The model also says nothing about inputs on which the evaluator returns normally despite a malformed part, namely:
  - a query outside the grid rectangle, which reads only the first and last node;
  - elements after the first match, which the scan never reads;
  - interior node indices of non-matching elements, which are never read;
  - a solution vector longer than the node count.
- The material id of an element is carried in the data model but not used, as in the evaluator.
- Elements of the grid are four-node bilinear cells; element location accepts any non-empty node list per element, so the four-node shape is not part of `Mesh.Valid`.
