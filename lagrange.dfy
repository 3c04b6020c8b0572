/** The Lagrange-form evaluator: P(t) = sum_j y_j * prod_{i != j} (t - x_i) / (x_j - x_i). */
module Lagrange {
  import opened Common

  /** x_j differs from every x_i with i < hi, i != j: no denominator of the first hi factors is 0. */
  predicate RowDistinct(xs: seq<real>, j: nat, hi: nat)
    requires j < |xs| && hi <= |xs|
  {
    forall i :: 0 <= i < hi && i != j ==> xs[i] != xs[j]
  }

  /** Rows 0..m-1 of the basis products have no zero denominator. */
  predicate RowsDistinct(xs: seq<real>, m: nat)
    requires m <= |xs|
  {
    forall a, b :: 0 <= a < m && 0 <= b < |xs| && a != b ==> xs[a] != xs[b]
  }

  /** The running basis value L_j after the factors i = 0 .. hi-1 (skipping i = j),
      multiplied in the order the evaluator multiplies them. */
  function Basis(xs: seq<real>, j: nat, hi: nat, t: real): real
    requires j < |xs| && hi <= |xs|
    requires RowDistinct(xs, j, hi)
    decreases hi
  {
    if hi == 0 then 1.0
    else if hi - 1 == j then Basis(xs, j, hi - 1, t)
    else Basis(xs, j, hi - 1, t) * ((t - xs[hi - 1]) / (xs[j] - xs[hi - 1]))
  }

  /** The accumulator after the terms j = 0 .. m-1: sum of y_j * L_j(t). */
  function LagrangeSum(xs: seq<real>, ys: seq<real>, m: nat, t: real): real
    requires |ys| == |xs| && m <= |xs|
    requires RowsDistinct(xs, m)
    decreases m
  {
    if m == 0 then 0.0
    else LagrangeSum(xs, ys, m - 1, t) + ys[m - 1] * Basis(xs, m - 1, |xs|, t)
  }

  /** The value at t of the Lagrange interpolating polynomial through (xs[k], ys[k]). */
  function LagrangeValue(xs: seq<real>, ys: seq<real>, t: real): real
    requires |ys| == |xs| && Distinct(xs)
  {
    LagrangeSum(xs, ys, |xs|, t)
  }

  /** lagrange_interpolation: the input checks, then the nested basis-product loop. */
  method Interpolate(xs: seq<real>, ys: seq<real>, t: real) returns (r: Result<real>)
    ensures r == Failure(DegenerateInput) <==> (|xs| < 2 || |xs| != |ys|)
    ensures r == Failure(DuplicateAbscissa) <==> (2 <= |xs| == |ys| && !Distinct(xs))
    ensures r.Success? <==> (2 <= |xs| == |ys| && Distinct(xs))
    ensures r.Success? ==> Distinct(xs) && |ys| == |xs| && r.value == LagrangeValue(xs, ys, t)
  {
    var n := |xs|;
    if n < 2 || n != |ys| {
      return Failure(DegenerateInput);
    }
    var p := 0.0;
    var j := 0;
    while j < n
      invariant 0 <= j <= n
      invariant RowsDistinct(xs, j)
      invariant p == LagrangeSum(xs, ys, j, t)
    {
      var row := BasisProduct(xs, j, t);
      if row.Failure? {
        return row;
      }
      var basis := row.value;
      p := p + ys[j] * basis;
      j := j + 1;
    }
    assert Distinct(xs);
    return Success(p);
  }

  /** The inner loop of lagrange_interpolation: L_j(t) as a running product, raising on the
      first i != j whose x equals x_j. */
  method BasisProduct(xs: seq<real>, j: nat, t: real) returns (r: Result<real>)
    requires j < |xs|
    ensures r.Success? <==> RowDistinct(xs, j, |xs|)
    ensures r.Failure? ==> r.error == DuplicateAbscissa
    ensures r.Success? ==> r.value == Basis(xs, j, |xs|, t)
  {
    var basis := 1.0;
    var i := 0;
    while i < |xs|
      invariant 0 <= i <= |xs|
      invariant RowDistinct(xs, j, i)
      invariant basis == Basis(xs, j, i, t)
    {
      if i != j {
        var denominator := xs[j] - xs[i];
        if denominator == 0.0 {
          assert xs[i] == xs[j];
          return Failure(DuplicateAbscissa);
        }
        basis := basis * ((t - xs[i]) / denominator);
      }
      i := i + 1;
    }
    return Success(basis);
  }

  /** At a node, the basis value of that node is 1. */
  lemma {:induction false} BasisAtOwnNode(xs: seq<real>, j: nat, hi: nat)
    requires j < |xs| && hi <= |xs| && RowDistinct(xs, j, hi)
    ensures Basis(xs, j, hi, xs[j]) == 1.0
  {
    if hi > 0 {
      BasisAtOwnNode(xs, j, hi - 1);
    }
  }

  /** At another node x_k (k < hi, k != j), the basis value of j is 0: the factor i = k vanishes. */
  lemma {:induction false} BasisAtOtherNode(xs: seq<real>, j: nat, k: nat, hi: nat)
    requires j < |xs| && hi <= |xs| && RowDistinct(xs, j, hi)
    requires k < hi && k != j
    ensures Basis(xs, j, hi, xs[k]) == 0.0
  {
    if k < hi - 1 {
      BasisAtOtherNode(xs, j, k, hi - 1);
    } else {
      var f := (xs[k] - xs[hi - 1]) / (xs[j] - xs[hi - 1]);
      assert f == 0.0;
      assert Basis(xs, j, hi, xs[k]) == Basis(xs, j, hi - 1, xs[k]) * f;
    }
  }

  /** The partial sum at node x_k picks out y_k exactly once it has included term k. */
  lemma {:induction false} LagrangeSumAtNode(xs: seq<real>, ys: seq<real>, k: nat, m: nat)
    requires |ys| == |xs| && m <= |xs| && Distinct(xs) && k < |xs|
    ensures LagrangeSum(xs, ys, m, xs[k]) == if k < m then ys[k] else 0.0
  {
    if m > 0 {
      LagrangeSumAtNode(xs, ys, k, m - 1);
      if m - 1 == k {
        BasisAtOwnNode(xs, k, |xs|);
      } else {
        BasisAtOtherNode(xs, m - 1, k, |xs|);
      }
    }
  }

  /** With distinct abscissae the Lagrange polynomial passes through every sample point. */
  lemma LagrangeInterpolates(xs: seq<real>, ys: seq<real>, k: nat)
    requires |ys| == |xs| && Distinct(xs) && k < |xs|
    ensures LagrangeValue(xs, ys, xs[k]) == ys[k]
  {
    LagrangeSumAtNode(xs, ys, k, |xs|);
  }
}
