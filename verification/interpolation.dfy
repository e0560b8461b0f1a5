/** Finite linear combinations of nodal solution values: the sum, over the
    local indices of an element, of the solution value at the element's node
    times a per-local-index weight (a basis function or one of its
    derivatives evaluated at the query point). */
module Interpolation {
  import opened Mesh

  /** Σ_i solution[indexes[i]] * weights[i], accumulated in local order
      (the partial sums of the first i terms, then the i-th term added). */
  function WeightedSum(solution: seq<real>, indexes: seq<nat>, weights: seq<real>): real
    requires |weights| == |indexes| && IndexesIn(indexes, |solution|)
    decreases |indexes|
  {
    if |indexes| == 0 then 0.0
    else
      var n := |indexes| - 1;
      WeightedSum(solution, indexes[..n], weights[..n]) + solution[indexes[n]] * weights[n]
  }

  /** Sum of the weights alone. */
  function Total(weights: seq<real>): real
    decreases |weights|
  {
    if |weights| == 0 then 0.0 else Total(weights[..|weights| - 1]) + weights[|weights| - 1]
  }

  /** The vector a * s1 + s2. */
  function Axpy(a: real, s1: seq<real>, s2: seq<real>): seq<real>
    requires |s1| == |s2|
  {
    seq(|s1|, i requires 0 <= i < |s1| => a * s1[i] + s2[i])
  }

  /** Two solution vectors hold the same values at the given indexes. */
  predicate AgreeOn(s1: seq<real>, s2: seq<real>, indexes: seq<nat>)
    requires IndexesIn(indexes, |s1|) && IndexesIn(indexes, |s2|)
  {
    forall j :: 0 <= j < |indexes| ==> s1[indexes[j]] == s2[indexes[j]]
  }

  /** The sum over a concatenation of local node lists is the sum of the
      two partial sums: the result is exactly the sum of one term per local
      node. */
  lemma {:induction false} WeightedSumConcat(solution: seq<real>, i1: seq<nat>, w1: seq<real>, i2: seq<nat>, w2: seq<real>)
    requires |w1| == |i1| && IndexesIn(i1, |solution|)
    requires |w2| == |i2| && IndexesIn(i2, |solution|)
    ensures WeightedSum(solution, i1 + i2, w1 + w2) == WeightedSum(solution, i1, w1) + WeightedSum(solution, i2, w2)
    decreases |i2|
  {
    if |i2| == 0 {
      assert i1 + i2 == i1 && w1 + w2 == w1;
    } else {
      var n := |i2| - 1;
      WeightedSumConcat(solution, i1, w1, i2[..n], w2[..n]);
      assert (i1 + i2)[..|i1| + n] == i1 + i2[..n];
      assert (w1 + w2)[..|w1| + n] == w1 + w2[..n];
    }
  }

  /** A single local node contributes its solution value times its weight. */
  lemma WeightedSumSingle(solution: seq<real>, k: nat, w: real)
    requires k < |solution|
    ensures WeightedSum(solution, [k], [w]) == solution[k] * w
  {
  }

  /** Only the entries the indexes address matter: solution entries elsewhere
      may change without changing the sum. */
  lemma {:induction false} WeightedSumLocal(s1: seq<real>, s2: seq<real>, indexes: seq<nat>, weights: seq<real>)
    requires |weights| == |indexes| && IndexesIn(indexes, |s1|) && IndexesIn(indexes, |s2|)
    requires AgreeOn(s1, s2, indexes)
    ensures WeightedSum(s1, indexes, weights) == WeightedSum(s2, indexes, weights)
    decreases |indexes|
  {
    if |indexes| > 0 {
      var n := |indexes| - 1;
      WeightedSumLocal(s1, s2, indexes[..n], weights[..n]);
    }
  }

  /** The sum is linear in the solution vector. */
  lemma {:induction false} WeightedSumLinear(a: real, s1: seq<real>, s2: seq<real>, indexes: seq<nat>, weights: seq<real>)
    requires |s1| == |s2| && |weights| == |indexes| && IndexesIn(indexes, |s1|)
    ensures WeightedSum(Axpy(a, s1, s2), indexes, weights)
         == a * WeightedSum(s1, indexes, weights) + WeightedSum(s2, indexes, weights)
    decreases |indexes|
  {
    if |indexes| > 0 {
      var n := |indexes| - 1;
      WeightedSumLinear(a, s1, s2, indexes[..n], weights[..n]);
      var k := indexes[n];
      assert Axpy(a, s1, s2)[k] * weights[n] == a * (s1[k] * weights[n]) + s2[k] * weights[n];
    }
  }

  /** A solution constant on the addressed entries yields that constant times
      the total weight; with weights summing to one (a partition of unity) the
      constant itself is reproduced. */
  lemma {:induction false} WeightedSumConstant(solution: seq<real>, indexes: seq<nat>, weights: seq<real>, c: real)
    requires |weights| == |indexes| && IndexesIn(indexes, |solution|)
    requires forall j :: 0 <= j < |indexes| ==> solution[indexes[j]] == c
    ensures WeightedSum(solution, indexes, weights) == c * Total(weights)
    decreases |indexes|
  {
    if |indexes| > 0 {
      var n := |indexes| - 1;
      WeightedSumConstant(solution, indexes[..n], weights[..n], c);
      assert weights[..n] == weights[..|weights| - 1];
    }
  }

  /** All-zero weights give a zero sum. */
  lemma {:induction false} WeightedSumZeroWeights(solution: seq<real>, indexes: seq<nat>, weights: seq<real>)
    requires |weights| == |indexes| && IndexesIn(indexes, |solution|)
    requires forall j :: 0 <= j < |weights| ==> weights[j] == 0.0
    ensures WeightedSum(solution, indexes, weights) == 0.0
    decreases |indexes|
  {
    if |indexes| > 0 {
      var n := |indexes| - 1;
      WeightedSumZeroWeights(solution, indexes[..n], weights[..n]);
    }
  }

  /** Weights forming the unit vector at local index k select the solution
      value at the k-th node: interpolation reproduces nodal values. */
  lemma {:induction false} WeightedSumKronecker(solution: seq<real>, indexes: seq<nat>, weights: seq<real>, k: nat)
    requires |weights| == |indexes| && IndexesIn(indexes, |solution|)
    requires k < |weights| && weights[k] == 1.0
    requires forall j :: 0 <= j < |weights| && j != k ==> weights[j] == 0.0
    ensures WeightedSum(solution, indexes, weights) == solution[indexes[k]]
    decreases |indexes|
  {
    var n := |indexes| - 1;
    if k == n {
      WeightedSumZeroWeights(solution, indexes[..n], weights[..n]);
    } else {
      WeightedSumKronecker(solution, indexes[..n], weights[..n], k);
    }
  }
}
