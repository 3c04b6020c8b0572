/** Over the reals, with distinct abscissae, the Newton form built from the divided differences and
    the Lagrange sum are the same polynomial. The route: each divided difference equals the
    symmetric sum  sum_j y_j / prod_{m != j} (x_j - x_m)  over its window, and adding node k to a
    Lagrange sum adds exactly  f[x_0..x_k] (t - x_0)...(t - x_k-1). */
module Equivalence {
  import opened Common
  import opened Algebra
  import opened Lagrange
  import opened Newton

  /** prod over m in [lo, hi), m != j, of (t - x_m); it is nonzero when no factor vanishes. */
  function ProdExcept(xs: seq<real>, lo: nat, hi: nat, j: nat, t: real): (p: real)
    requires lo <= hi <= |xs|
    ensures (forall m :: lo <= m < hi && m != j ==> xs[m] != t) ==> p != 0.0
    decreases hi
  {
    if hi == lo then 1.0
    else if hi - 1 == j then ProdExcept(xs, lo, hi - 1, j, t)
    else ProdExcept(xs, lo, hi - 1, j, t) * (t - xs[hi - 1])
  }

  /** The denominator of node j over the window [lo, hi): prod_{m != j} (x_j - x_m). */
  function Weight(xs: seq<real>, lo: nat, hi: nat, j: nat): real
    requires lo <= hi <= |xs| && j < |xs|
  {
    ProdExcept(xs, lo, hi, j, xs[j])
  }

  /** sum over j in [s, m) of y_j / Weight(lo, hi, j). */
  function WeightedSum(xs: seq<real>, ys: seq<real>, lo: nat, hi: nat, s: nat, m: nat): real
    requires lo <= hi <= |xs| == |ys| && s <= m <= |xs| && Distinct(xs)
    decreases m
  {
    if m == s then 0.0
    else WeightedSum(xs, ys, lo, hi, s, m - 1) + ys[m - 1] / Weight(xs, lo, hi, m - 1)
  }

  /** The symmetric formula for f[x_lo..x_hi] (closed window). */
  function ExplicitDD(xs: seq<real>, ys: seq<real>, lo: nat, hi: nat): real
    requires lo <= hi < |xs| == |ys| && Distinct(xs)
  {
    WeightedSum(xs, ys, lo, hi + 1, lo, hi + 1)
  }

  /** The Lagrange sum through the first k nodes, terms j in [0, m). */
  function WindowSum(xs: seq<real>, ys: seq<real>, k: nat, m: nat, t: real): real
    requires k <= |xs| == |ys| && m <= |xs| && Distinct(xs)
    decreases m
  {
    if m == 0 then 0.0
    else WindowSum(xs, ys, k, m - 1, t) + ys[m - 1] * (ProdExcept(xs, 0, k, m - 1, t) / Weight(xs, 0, k, m - 1))
  }

  lemma {:induction false} ProdExceptBottom(xs: seq<real>, lo: nat, hi: nat, j: nat, t: real)
    requires lo < hi <= |xs| && j != lo
    ensures ProdExcept(xs, lo, hi, j, t) == (t - xs[lo]) * ProdExcept(xs, lo + 1, hi, j, t)
  {
    if hi > lo + 1 {
      ProdExceptBottom(xs, lo, hi - 1, j, t);
      if hi - 1 != j {
        MulAssoc(t - xs[lo], ProdExcept(xs, lo + 1, hi - 1, j, t), t - xs[hi - 1]);
      }
    }
  }

  lemma {:induction false} ProdExceptOutside(xs: seq<real>, lo: nat, hi: nat, j: nat, t: real)
    requires lo <= hi <= |xs| && (j < lo || hi <= j)
    ensures ProdExcept(xs, lo, hi, j, t) == Omega(xs, lo, hi, t)
  {
    if hi > lo {
      ProdExceptOutside(xs, lo, hi - 1, j, t);
    }
  }

  /** Putting the missing factor back gives the full product. */
  lemma {:induction false} ProdExceptComplete(xs: seq<real>, lo: nat, hi: nat, j: nat, t: real)
    requires lo <= j < hi <= |xs|
    ensures ProdExcept(xs, lo, hi, j, t) * (t - xs[j]) == Omega(xs, lo, hi, t)
  {
    if hi - 1 == j {
      ProdExceptOutside(xs, lo, hi - 1, j, t);
    } else {
      ProdExceptComplete(xs, lo, hi - 1, j, t);
      var u, a, b := ProdExcept(xs, lo, hi - 1, j, t), t - xs[hi - 1], t - xs[j];
      MulAssoc(u, a, b);
      MulAssoc(u, b, a);
    }
  }

  lemma {:induction false} WeightedSumSplitLow(xs: seq<real>, ys: seq<real>, lo: nat, hi: nat, s: nat, m: nat)
    requires lo <= hi <= |xs| == |ys| && s < m <= |xs| && Distinct(xs)
    ensures WeightedSum(xs, ys, lo, hi, s, m) == ys[s] / Weight(xs, lo, hi, s) + WeightedSum(xs, ys, lo, hi, s + 1, m)
    decreases m
  {
    if m > s + 1 {
      WeightedSumSplitLow(xs, ys, lo, hi, s, m - 1);
    }
  }

  /** One interior node j, lo < j < hi: y_j / W[lo+1, hi] - y_j / W[lo, hi-1] = (x_hi - x_lo) y_j / W[lo, hi]
      (windows written closed). */
  lemma InteriorTerm(xs: seq<real>, ys: seq<real>, lo: nat, hi: nat, j: nat)
    requires lo < j < hi < |xs| == |ys| && Distinct(xs)
    ensures ys[j] / Weight(xs, lo + 1, hi + 1, j) - ys[j] / Weight(xs, lo, hi, j)
         == (xs[hi] - xs[lo]) * (ys[j] / Weight(xs, lo, hi + 1, j))
  {
    var a, b, c := Weight(xs, lo + 1, hi + 1, j), Weight(xs, lo, hi, j), Weight(xs, lo, hi + 1, j);
    assert xs[j] != xs[lo] && xs[j] != xs[hi];
    ProdExceptBottom(xs, lo, hi + 1, j, xs[j]);
    assert c == (xs[j] - xs[lo]) * a;
    assert c == b * (xs[j] - xs[hi]);
    ReciprocalDifference(ys[j], a, b, c, xs[j] - xs[lo], xs[j] - xs[hi]);
  }

  /** The interior terms of the recurrence, summed over lo < j < m. */
  lemma {:induction false} WeightedSumInterior(xs: seq<real>, ys: seq<real>, lo: nat, hi: nat, m: nat)
    requires lo < hi < |xs| == |ys| && lo + 1 <= m <= hi && Distinct(xs)
    ensures WeightedSum(xs, ys, lo + 1, hi + 1, lo + 1, m) - WeightedSum(xs, ys, lo, hi, lo + 1, m)
         == (xs[hi] - xs[lo]) * WeightedSum(xs, ys, lo, hi + 1, lo + 1, m)
    decreases m
  {
    if m > lo + 1 {
      WeightedSumInterior(xs, ys, lo, hi, m - 1);
      InteriorStep(xs, ys, lo, hi, m - 1, m);
    }
  }

  /** Adding the interior node j = m-1 to the three sums of WeightedSumInterior keeps the identity. */
  lemma InteriorStep(xs: seq<real>, ys: seq<real>, lo: nat, hi: nat, j: nat, m: nat)
    requires lo < j < hi < |xs| == |ys| && m == j + 1 && Distinct(xs)
    requires WeightedSum(xs, ys, lo + 1, hi + 1, lo + 1, j) - WeightedSum(xs, ys, lo, hi, lo + 1, j)
          == (xs[hi] - xs[lo]) * WeightedSum(xs, ys, lo, hi + 1, lo + 1, j)
    ensures WeightedSum(xs, ys, lo + 1, hi + 1, lo + 1, m) - WeightedSum(xs, ys, lo, hi, lo + 1, m)
         == (xs[hi] - xs[lo]) * WeightedSum(xs, ys, lo, hi + 1, lo + 1, m)
  {
    InteriorTerm(xs, ys, lo, hi, j);
    ScaledDifferenceStep(WeightedSum(xs, ys, lo + 1, hi + 1, lo + 1, j), WeightedSum(xs, ys, lo, hi, lo + 1, j),
      WeightedSum(xs, ys, lo, hi + 1, lo + 1, j),
      ys[j] / Weight(xs, lo + 1, hi + 1, j), ys[j] / Weight(xs, lo, hi, j), ys[j] / Weight(xs, lo, hi + 1, j),
      xs[hi] - xs[lo]);
  }

  /** The top node hi: y_hi / W[lo+1, hi] = (x_hi - x_lo) y_hi / W[lo, hi]. */
  lemma TopNodeTerm(xs: seq<real>, ys: seq<real>, lo: nat, hi: nat)
    requires lo < hi < |xs| == |ys| && Distinct(xs)
    ensures ys[hi] / Weight(xs, lo + 1, hi + 1, hi) == (xs[hi] - xs[lo]) * (ys[hi] / Weight(xs, lo, hi + 1, hi))
  {
    var ah, ch := Weight(xs, lo + 1, hi + 1, hi), Weight(xs, lo, hi + 1, hi);
    ProdExceptBottom(xs, lo, hi + 1, hi, xs[hi]);
    assert ch == (xs[hi] - xs[lo]) * ah;
    ReciprocalDifference(ys[hi], ah, ch, ch, xs[hi] - xs[lo], 1.0);
  }

  /** The bottom node lo: -y_lo / W[lo, hi-1] = (x_hi - x_lo) y_lo / W[lo, hi]. */
  lemma BottomNodeTerm(xs: seq<real>, ys: seq<real>, lo: nat, hi: nat)
    requires lo < hi < |xs| == |ys| && Distinct(xs)
    ensures -(ys[lo] / Weight(xs, lo, hi, lo)) == (xs[hi] - xs[lo]) * (ys[lo] / Weight(xs, lo, hi + 1, lo))
  {
    var bl, cl := Weight(xs, lo, hi, lo), Weight(xs, lo, hi + 1, lo);
    assert cl == bl * (xs[lo] - xs[hi]);
    ReciprocalDifference(ys[lo], cl, bl, cl, 1.0, xs[lo] - xs[hi]);
  }

  /** The three parts of each symmetric sum in the recurrence. */
  lemma ExplicitParts(xs: seq<real>, ys: seq<real>, lo: nat, hi: nat)
    requires lo < hi < |xs| == |ys| && Distinct(xs)
    ensures ExplicitDD(xs, ys, lo + 1, hi)
         == WeightedSum(xs, ys, lo + 1, hi + 1, lo + 1, hi) + ys[hi] / Weight(xs, lo + 1, hi + 1, hi)
    ensures ExplicitDD(xs, ys, lo, hi - 1)
         == ys[lo] / Weight(xs, lo, hi, lo) + WeightedSum(xs, ys, lo, hi, lo + 1, hi)
    ensures ExplicitDD(xs, ys, lo, hi)
         == ys[lo] / Weight(xs, lo, hi + 1, lo) + (WeightedSum(xs, ys, lo, hi + 1, lo + 1, hi) + ys[hi] / Weight(xs, lo, hi + 1, hi))
  {
    WeightedSumSplitLow(xs, ys, lo, hi, lo, hi);
    WeightedSumSplitLow(xs, ys, lo, hi + 1, lo, hi + 1);
  }

  /** The symmetric formula satisfies the divided-difference recurrence. */
  lemma ExplicitRecurrence(xs: seq<real>, ys: seq<real>, lo: nat, hi: nat)
    requires lo < hi < |xs| == |ys| && Distinct(xs)
    ensures ExplicitDD(xs, ys, lo + 1, hi) - ExplicitDD(xs, ys, lo, hi - 1) == (xs[hi] - xs[lo]) * ExplicitDD(xs, ys, lo, hi)
  {
    var d := xs[hi] - xs[lo];
    var inner := WeightedSum(xs, ys, lo, hi + 1, lo + 1, hi);
    var top, bottom := ys[hi] / Weight(xs, lo, hi + 1, hi), ys[lo] / Weight(xs, lo, hi + 1, lo);
    ExplicitParts(xs, ys, lo, hi);
    TopNodeTerm(xs, ys, lo, hi);
    BottomNodeTerm(xs, ys, lo, hi);
    WeightedSumInterior(xs, ys, lo, hi, hi);
    Distribute(d, bottom, inner + top);
    Distribute(d, inner, top);
  }

  /** The recursive divided difference equals the symmetric formula. */
  lemma {:induction false} DividedDifferenceIsExplicit(xs: seq<real>, ys: seq<real>, lo: nat, hi: nat)
    requires lo <= hi < |xs| == |ys| && Distinct(xs)
    ensures DividedDifference(xs, ys, lo, hi) == ExplicitDD(xs, ys, lo, hi)
    decreases hi - lo
  {
    if lo == hi {
      assert ProdExcept(xs, lo, lo + 1, lo, xs[lo]) == ProdExcept(xs, lo, lo, lo, xs[lo]) == 1.0;
      assert WeightedSum(xs, ys, lo, lo + 1, lo, lo + 1) == 0.0 + ys[lo] / Weight(xs, lo, lo + 1, lo);
    } else {
      DividedDifferenceIsExplicit(xs, ys, lo + 1, hi);
      DividedDifferenceIsExplicit(xs, ys, lo, hi - 1);
      ExplicitRecurrence(xs, ys, lo, hi);
      DivCancel(ExplicitDD(xs, ys, lo + 1, hi) - ExplicitDD(xs, ys, lo, hi - 1), xs[hi] - xs[lo], ExplicitDD(xs, ys, lo, hi));
    }
  }

  /** One term of the window growth: node j < k gains the factor (t - x_k) / (x_j - x_k). */
  lemma WindowTermGrow(xs: seq<real>, ys: seq<real>, k: nat, j: nat, t: real)
    requires j < k < |xs| == |ys| && Distinct(xs)
    ensures ys[j] * (ProdExcept(xs, 0, k + 1, j, t) / Weight(xs, 0, k + 1, j))
          - ys[j] * (ProdExcept(xs, 0, k, j, t) / Weight(xs, 0, k, j))
         == Omega(xs, 0, k, t) * (ys[j] / Weight(xs, 0, k + 1, j))
  {
    var u, w := ProdExcept(xs, 0, k, j, t), Weight(xs, 0, k, j);
    assert ProdExcept(xs, 0, k + 1, j, t) == u * (t - xs[k]);
    assert Weight(xs, 0, k + 1, j) == w * (xs[j] - xs[k]);
    ProdExceptComplete(xs, 0, k, j, t);
    BasisIncrement(ys[j], u, w, t, xs[j], xs[k], Omega(xs, 0, k, t));
  }

  /** Growing the window from k to k+1 nodes changes the first m <= k terms by
      Omega(0, k) times their weighted sum. */
  lemma {:induction false} WindowSumGrow(xs: seq<real>, ys: seq<real>, k: nat, m: nat, t: real)
    requires k < |xs| == |ys| && m <= k && Distinct(xs)
    ensures WindowSum(xs, ys, k + 1, m, t) - WindowSum(xs, ys, k, m, t)
         == Omega(xs, 0, k, t) * WeightedSum(xs, ys, 0, k + 1, 0, m)
    decreases m
  {
    if m > 0 {
      WindowSumGrow(xs, ys, k, m - 1, t);
      WindowTermGrow(xs, ys, k, m - 1, t);
      Distribute(Omega(xs, 0, k, t), WeightedSum(xs, ys, 0, k + 1, 0, m - 1), ys[m - 1] / Weight(xs, 0, k + 1, m - 1));
    }
  }

  /** Adding node k to the Lagrange sum through nodes 0..k-1 adds f[x_0..x_k] Omega(0, k). */
  lemma WindowSumStep(xs: seq<real>, ys: seq<real>, k: nat, t: real)
    requires k < |xs| == |ys| && Distinct(xs)
    ensures WindowSum(xs, ys, k + 1, k + 1, t) == WindowSum(xs, ys, k, k, t) + ExplicitDD(xs, ys, 0, k) * Omega(xs, 0, k, t)
  {
    var om := Omega(xs, 0, k, t);
    var w := Weight(xs, 0, k + 1, k);
    WindowSumGrow(xs, ys, k, k, t);
    ProdExceptOutside(xs, 0, k, k, t);
    assert ProdExcept(xs, 0, k + 1, k, t) == om;
    ScaleRatio(ys[k], om, w);
    Distribute(om, WeightedSum(xs, ys, 0, k + 1, 0, k), ys[k] / w);
  }

  /** cs holds the symmetric formula for f[x_0..x_i] in every slot i. */
  predicate ExplicitCoefficients(xs: seq<real>, ys: seq<real>, cs: seq<real>)
    requires |xs| == |ys| && Distinct(xs)
  {
    |cs| == |xs| && forall i :: 0 <= i < |cs| ==> cs[i] == ExplicitDD(xs, ys, 0, i)
  }

  /** The Newton form of the first k coefficients is the Lagrange sum through the first k nodes. */
  lemma NewtonIsWindowSum(xs: seq<real>, ys: seq<real>, k: nat, t: real)
    requires 1 <= k <= |xs| == |ys| && Distinct(xs)
    ensures NewtonPrefix(xs, Coefficients(xs, ys), 0, k, t) == WindowSum(xs, ys, k, k, t)
  {
    var cs := Coefficients(xs, ys);
    forall i | 0 <= i < |cs|
      ensures cs[i] == ExplicitDD(xs, ys, 0, i)
    {
      DividedDifferenceIsExplicit(xs, ys, 0, i);
    }
    ExplicitNewtonIsWindowSum(xs, ys, cs, k, t);
  }

  lemma {:induction false} ExplicitNewtonIsWindowSum(xs: seq<real>, ys: seq<real>, cs: seq<real>, k: nat, t: real)
    requires 1 <= k <= |xs| == |ys| && Distinct(xs) && ExplicitCoefficients(xs, ys, cs)
    ensures NewtonPrefix(xs, cs, 0, k, t) == WindowSum(xs, ys, k, k, t)
  {
    if k == 1 {
      assert Weight(xs, 0, 1, 0) == 1.0 && ProdExcept(xs, 0, 1, 0, t) == 1.0;
    } else {
      ExplicitNewtonIsWindowSum(xs, ys, cs, k - 1, t);
      ExplicitNewtonStep(xs, ys, cs, k - 1, t);
    }
  }

  /** Adding coefficient k to the Newton form adds node k to the Lagrange sum. */
  lemma ExplicitNewtonStep(xs: seq<real>, ys: seq<real>, cs: seq<real>, k: nat, t: real)
    requires 1 <= k < |xs| == |ys| == |cs| && Distinct(xs) && cs[k] == ExplicitDD(xs, ys, 0, k)
    requires NewtonPrefix(xs, cs, 0, k, t) == WindowSum(xs, ys, k, k, t)
    ensures NewtonPrefix(xs, cs, 0, k + 1, t) == WindowSum(xs, ys, k + 1, k + 1, t)
  {
    WindowSumStep(xs, ys, k, t);
  }

  /** The evaluator's basis product, factor by factor, is the ratio of the two full products. */
  lemma {:induction false} BasisIsRatio(xs: seq<real>, j: nat, hi: nat, t: real)
    requires j < |xs| && hi <= |xs| && Distinct(xs)
    ensures Basis(xs, j, hi, t) == ProdExcept(xs, 0, hi, j, t) / Weight(xs, 0, hi, j)
  {
    if hi > 0 {
      BasisIsRatio(xs, j, hi - 1, t);
      if hi - 1 != j {
        RatioProduct(ProdExcept(xs, 0, hi - 1, j, t), Weight(xs, 0, hi - 1, j), t - xs[hi - 1], xs[j] - xs[hi - 1]);
      }
    }
  }

  lemma {:induction false} LagrangeSumIsWindowSum(xs: seq<real>, ys: seq<real>, m: nat, t: real)
    requires |ys| == |xs| && m <= |xs| && Distinct(xs)
    ensures LagrangeSum(xs, ys, m, t) == WindowSum(xs, ys, |xs|, m, t)
  {
    if m > 0 {
      LagrangeSumIsWindowSum(xs, ys, m - 1, t);
      BasisIsRatio(xs, m - 1, |xs|, t);
    }
  }

  /** Both evaluators compute the same interpolating polynomial. */
  lemma NewtonEqualsLagrange(xs: seq<real>, ys: seq<real>, t: real)
    requires 1 <= |xs| == |ys| && Distinct(xs)
    ensures NewtonForm(xs, Coefficients(xs, ys), t) == LagrangeValue(xs, ys, t)
  {
    NewtonIsWindowSum(xs, ys, |xs|, t);
    LagrangeSumIsWindowSum(xs, ys, |xs|, t);
  }

  /** The Newton form passes through every sample point. */
  lemma NewtonInterpolates(xs: seq<real>, ys: seq<real>, k: nat)
    requires |xs| == |ys| && Distinct(xs) && k < |xs|
    ensures NewtonForm(xs, Coefficients(xs, ys), xs[k]) == ys[k]
  {
    NewtonEqualsLagrange(xs, ys, xs[k]);
    LagrangeInterpolates(xs, ys, k);
  }

  /** Constant data give that constant at every t: the Lagrange basis values sum to 1. */
  lemma LagrangeOfConstant(xs: seq<real>, ys: seq<real>, c: real, t: real)
    requires 1 <= |xs| == |ys| && Distinct(xs)
    requires forall k :: 0 <= k < |ys| ==> ys[k] == c
    ensures LagrangeValue(xs, ys, t) == c
  {
    NewtonEqualsLagrange(xs, ys, t);
    NewtonOfConstant(xs, ys, c, t);
  }
}
