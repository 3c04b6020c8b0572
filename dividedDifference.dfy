/** The Newton divided-difference evaluator: an in-place coefficient buffer, then Horner's method. */
module NewtonEvaluator {
  import opened Common
  import opened Newton
  import Lagrange
  import Equivalence

  /** The lower end of the window that buffer slot k holds after the orders 1..d are done. */
  function WindowStart(k: nat, d: nat): nat {
    if k >= d then k - d else 0
  }

  /** Every pair of abscissae at index distance at most d differs. */
  predicate CloseDistinct(xs: seq<real>, d: nat) {
    forall a, b :: 0 <= a < b < |xs| && b - a <= d ==> xs[a] != xs[b]
  }

  /** The buffer after the orders 1..d: slot k holds f[x_{k-d}..x_k] (or f[x_0..x_k] once k <= d). */
  ghost predicate TableAfter(xs: seq<real>, ys: seq<real>, coef: seq<real>, d: nat, lo: nat, hi: nat)
    requires |coef| == |xs| == |ys| && hi <= |xs|
  {
    forall k :: lo <= k < hi ==>
      DistinctWithin(xs, WindowStart(k, d), k) && coef[k] == DividedDifference(xs, ys, WindowStart(k, d), k)
  }

  /** Recomputing slot j at order i from slots j and j-1 keeps the table invariant. */
  lemma TableStep(xs: seq<real>, ys: seq<real>, coef: seq<real>, i: nat, j: nat)
    requires |coef| == |xs| == |ys| && 1 <= i <= j < |xs|
    requires CloseDistinct(xs, i - 1) && xs[j - i] != xs[j]
    requires TableAfter(xs, ys, coef, i, j + 1, |xs|)
    requires TableAfter(xs, ys, coef, i - 1, 0, j + 1)
    ensures DistinctWithin(xs, j - i, j)
    ensures TableAfter(xs, ys, coef[j := (coef[j] - coef[j - 1]) / (xs[j] - xs[j - i])], i, j, |xs|)
    ensures TableAfter(xs, ys, coef[j := (coef[j] - coef[j - 1]) / (xs[j] - xs[j - i])], i - 1, 0, j)
  {
    assert WindowStart(j, i - 1) == j - i + 1 && WindowStart(j - 1, i - 1) == j - i;
    assert DistinctWithin(xs, j - i, j);
  }

  /** Once slot i-1 is reached, order i is complete: CloseDistinct grows by one and every slot
      holds its order i window. */
  lemma OrderDone(xs: seq<real>, ys: seq<real>, coef: seq<real>, i: nat)
    requires |coef| == |xs| == |ys| && 1 <= i < |xs|
    requires CloseDistinct(xs, i - 1)
    requires forall b :: i - 1 < b < |xs| ==> xs[b - i] != xs[b]
    requires TableAfter(xs, ys, coef, i, i, |xs|)
    requires TableAfter(xs, ys, coef, i - 1, 0, i)
    ensures CloseDistinct(xs, i)
    ensures TableAfter(xs, ys, coef, i, 0, |xs|)
  {
    forall a, b | 0 <= a < b < |xs| && b - a <= i
      ensures xs[a] != xs[b]
    {
      if b - a == i {
        assert xs[b - i] != xs[b];
      }
    }
    forall k | 0 <= k < i
      ensures WindowStart(k, i) == WindowStart(k, i - 1) == 0
    {
    }
  }

  /** After the last order every slot k holds f[x_0..x_k] and all abscissae are distinct. */
  lemma TableComplete(xs: seq<real>, ys: seq<real>, coef: seq<real>)
    requires |coef| == |xs| == |ys| >= 1
    requires CloseDistinct(xs, |xs| - 1)
    requires TableAfter(xs, ys, coef, |xs| - 1, 0, |xs|)
    ensures Distinct(xs)
    ensures coef == Coefficients(xs, ys)
  {
    forall a, b | 0 <= a < |xs| && 0 <= b < |xs| && a != b
      ensures xs[a] != xs[b]
    {
      if a < b { assert b - a <= |xs| - 1; } else { assert a - b <= |xs| - 1; }
    }
    forall k | 0 <= k < |xs|
      ensures coef[k] == Coefficients(xs, ys)[k]
    {
      assert WindowStart(k, |xs| - 1) == 0;
    }
  }

  /** The table loop of divided_difference_interpolation, run in place on `coef` (initially the
      y-values). Fails exactly when two abscissae coincide; otherwise slot k ends as f[x_0..x_k]. */
  method BuildTable(xs: seq<real>, coef: array<real>) returns (ok: bool)
    requires coef.Length == |xs| >= 1
    modifies coef
    ensures ok <==> Distinct(xs)
    ensures ok ==> coef[..] == Coefficients(xs, old(coef[..]))
  {
    ghost var ys := coef[..];
    var n := coef.Length;
    var i := 1;
    while i < n
      invariant 1 <= i <= n
      invariant coef.Length == n && |ys| == n
      invariant CloseDistinct(xs, i - 1)
      invariant TableAfter(xs, ys, coef[..], i - 1, 0, n)
    {
      ok := TableOrder(xs, ys, coef, i);
      if !ok {
        return false;
      }
      i := i + 1;
    }
    TableComplete(xs, ys, coef[..]);
    return true;
  }

  /** Order i of the table loop: slots j = n-1 down to i are rewritten; going downwards, slot j-1
      still holds its order i-1 value when slot j is recomputed. A zero denominator, that is two
      abscissae i apart that coincide, stops the table. */
  method TableOrder(xs: seq<real>, ghost ys: seq<real>, coef: array<real>, i: nat) returns (ok: bool)
    requires coef.Length == |xs| == |ys| && 1 <= i < |xs|
    requires CloseDistinct(xs, i - 1)
    requires TableAfter(xs, ys, coef[..], i - 1, 0, |xs|)
    modifies coef
    ensures !ok ==> !Distinct(xs)
    ensures ok ==> CloseDistinct(xs, i) && TableAfter(xs, ys, coef[..], i, 0, |xs|)
  {
    var n := coef.Length;
    var j := n - 1;
    while j >= i
      invariant i - 1 <= j <= n - 1
      invariant forall b :: j < b < n ==> xs[b - i] != xs[b]
      invariant TableAfter(xs, ys, coef[..], i, j + 1, n)
      invariant TableAfter(xs, ys, coef[..], i - 1, 0, j + 1)
    {
      var numerator := coef[j] - coef[j - 1];
      var denominator := xs[j] - xs[j - i];
      if denominator == 0.0 {
        assert xs[j - i] == xs[j] && !Distinct(xs);
        return false;
      }
      TableStep(xs, ys, coef[..], i, j);
      coef[j] := numerator / denominator;
      j := j - 1;
    }
    OrderDone(xs, ys, coef[..], i);
    return true;
  }

  /** The evaluation loop of divided_difference_interpolation: Horner's method from the highest
      coefficient down yields the Newton form of the coefficients at t. */
  method Evaluate(xs: seq<real>, coef: array<real>, t: real) returns (p: real)
    requires 1 <= coef.Length <= |xs|
    ensures p == NewtonForm(xs, coef[..], t)
  {
    ghost var cs := coef[..];
    var n := coef.Length;
    p := coef[n - 1];
    var i := n - 1;
    while i > 0
      invariant 0 <= i <= n - 1
      invariant p == NewtonPrefix(xs, cs, i, n, t)
    {
      i := i - 1;
      HornerStep(xs, cs, i, n, t);
      p := p * (t - xs[i]) + coef[i];
    }
  }

  /** divided_difference_interpolation: the input checks, the coefficient table, then Horner's
      method. Over the reals the result is the Lagrange value. */
  method Interpolate(xs: seq<real>, ys: seq<real>, t: real) returns (r: Result<real>)
    ensures r == Failure(DegenerateInput) <==> (|xs| < 2 || |xs| != |ys|)
    ensures r == Failure(DuplicateAbscissa) <==> (2 <= |xs| == |ys| && !Distinct(xs))
    ensures r.Success? <==> (2 <= |xs| == |ys| && Distinct(xs))
    ensures r.Success? ==> Distinct(xs) && |ys| == |xs| && r.value == NewtonForm(xs, Coefficients(xs, ys), t)
    ensures r.Success? ==> r.value == Lagrange.LagrangeValue(xs, ys, t)
  {
    var n := |xs|;
    if n < 2 || n != |ys| {
      return Failure(DegenerateInput);
    }
    var coef := new real[n];
    forall k | 0 <= k < n {
      coef[k] := ys[k];
    }
    assert coef[..] == ys;
    var ok := BuildTable(xs, coef);
    if !ok {
      return Failure(DuplicateAbscissa);
    }
    var p := Evaluate(xs, coef, t);
    Equivalence.NewtonEqualsLagrange(xs, ys, t);
    return Success(p);
  }
}
