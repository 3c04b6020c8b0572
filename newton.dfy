/** Newton's form of the interpolating polynomial: divided differences and the nested products
    (t - x_0)(t - x_1)...(t - x_{k-1}) they multiply. */
module Newton {
  import opened Common
  import opened Algebra

  /** No two x-values with indices in the closed window [lo, hi] coincide. */
  predicate DistinctWithin(xs: seq<real>, lo: nat, hi: nat) {
    hi < |xs| && forall a, b :: lo <= a < b <= hi ==> xs[a] != xs[b]
  }

  /** The divided difference f[x_lo, ..., x_hi], by the recursion
      f[x_lo..x_hi] = (f[x_lo+1..x_hi] - f[x_lo..x_hi-1]) / (x_hi - x_lo). */
  function DividedDifference(xs: seq<real>, ys: seq<real>, lo: nat, hi: nat): real
    requires lo <= hi < |xs| == |ys|
    requires DistinctWithin(xs, lo, hi)
    decreases hi - lo
  {
    if lo == hi then ys[lo]
    else (DividedDifference(xs, ys, lo + 1, hi) - DividedDifference(xs, ys, lo, hi - 1)) / (xs[hi] - xs[lo])
  }

  /** The Newton coefficients c_k = f[x_0, ..., x_k], k = 0 .. n-1. */
  function Coefficients(xs: seq<real>, ys: seq<real>): seq<real>
    requires |xs| == |ys| && Distinct(xs)
  {
    seq(|xs|, k requires 0 <= k < |xs| => DividedDifference(xs, ys, 0, k))
  }

  /** The product (t - x_lo)(t - x_lo+1)...(t - x_hi-1); 1 for an empty range. */
  function Omega(xs: seq<real>, lo: nat, hi: nat, t: real): real
    requires lo <= hi <= |xs|
    decreases hi
  {
    if hi == lo then 1.0 else Omega(xs, lo, hi - 1, t) * (t - xs[hi - 1])
  }

  /** sum_{k in [lo, hi)} cs[k] * (t - x_lo)...(t - x_k-1): the Newton form with base point lo. */
  function NewtonPrefix(xs: seq<real>, cs: seq<real>, lo: nat, hi: nat, t: real): real
    requires lo <= hi <= |xs| && hi <= |cs|
    decreases hi
  {
    if hi == lo then 0.0
    else NewtonPrefix(xs, cs, lo, hi - 1, t) + cs[hi - 1] * Omega(xs, lo, hi - 1, t)
  }

  /** P(t) = c_0 + c_1 (t - x_0) + c_2 (t - x_0)(t - x_1) + ... */
  function NewtonForm(xs: seq<real>, cs: seq<real>, t: real): real
    requires |cs| <= |xs|
  {
    NewtonPrefix(xs, cs, 0, |cs|, t)
  }

  /** Peeling the lowest factor off the nested product. */
  lemma {:induction false} OmegaBottom(xs: seq<real>, lo: nat, hi: nat, t: real)
    requires lo < hi <= |xs|
    ensures Omega(xs, lo, hi, t) == (t - xs[lo]) * Omega(xs, lo + 1, hi, t)
  {
    if hi > lo + 1 {
      OmegaBottom(xs, lo, hi - 1, t);
      var d, w, f := t - xs[lo], Omega(xs, lo + 1, hi - 1, t), t - xs[hi - 1];
      assert Omega(xs, lo, hi, t) == Omega(xs, lo, hi - 1, t) * f;
      assert Omega(xs, lo + 1, hi, t) == w * f;
      MulAssoc(d, w, f);
    }
  }

  /** One Horner step: the Newton form with base point lo is c_lo + (t - x_lo) times the
      Newton form with base point lo + 1. */
  lemma {:induction false} HornerStep(xs: seq<real>, cs: seq<real>, lo: nat, hi: nat, t: real)
    requires lo < hi <= |xs| && hi <= |cs|
    ensures NewtonPrefix(xs, cs, lo, hi, t) == cs[lo] + (t - xs[lo]) * NewtonPrefix(xs, cs, lo + 1, hi, t)
  {
    if hi == lo + 1 {
      HornerBase(xs, cs, lo, t);
    } else {
      HornerStep(xs, cs, lo, hi - 1, t);
      HornerGrow(xs, cs, lo, hi, t);
    }
  }

  lemma HornerBase(xs: seq<real>, cs: seq<real>, lo: nat, t: real)
    requires lo < |xs| && lo < |cs|
    ensures NewtonPrefix(xs, cs, lo, lo + 1, t) == cs[lo] + (t - xs[lo]) * NewtonPrefix(xs, cs, lo + 1, lo + 1, t)
  {
    assert NewtonPrefix(xs, cs, lo + 1, lo + 1, t) == 0.0;
    assert Omega(xs, lo, lo, t) == 1.0;
    assert NewtonPrefix(xs, cs, lo, lo + 1, t) == NewtonPrefix(xs, cs, lo, lo, t) + cs[lo] * 1.0;
  }

  /** The inductive step of HornerStep, from the identity for hi - 1 to the one for hi. */
  lemma HornerGrow(xs: seq<real>, cs: seq<real>, lo: nat, hi: nat, t: real)
    requires lo + 1 < hi <= |xs| && hi <= |cs|
    requires NewtonPrefix(xs, cs, lo, hi - 1, t) == cs[lo] + (t - xs[lo]) * NewtonPrefix(xs, cs, lo + 1, hi - 1, t)
    ensures NewtonPrefix(xs, cs, lo, hi, t) == cs[lo] + (t - xs[lo]) * NewtonPrefix(xs, cs, lo + 1, hi, t)
  {
    var tail, w := NewtonPrefix(xs, cs, lo + 1, hi - 1, t), Omega(xs, lo + 1, hi - 1, t);
    HornerTopTerms(xs, cs, lo, hi, t);
    HornerRegroup(cs[lo], t - xs[lo], tail, cs[hi - 1], w);
  }

  /** The top terms of the two Newton forms HornerGrow relates, with the lowest factor of the
      larger one peeled off. */
  lemma HornerTopTerms(xs: seq<real>, cs: seq<real>, lo: nat, hi: nat, t: real)
    requires lo + 1 < hi <= |xs| && hi <= |cs|
    ensures NewtonPrefix(xs, cs, lo, hi, t)
         == NewtonPrefix(xs, cs, lo, hi - 1, t) + cs[hi - 1] * ((t - xs[lo]) * Omega(xs, lo + 1, hi - 1, t))
    ensures NewtonPrefix(xs, cs, lo + 1, hi, t)
         == NewtonPrefix(xs, cs, lo + 1, hi - 1, t) + cs[hi - 1] * Omega(xs, lo + 1, hi - 1, t)
  {
    OmegaBottom(xs, lo, hi - 1, t);
  }

  /** The divided differences of a constant sample vanish beyond order 0. */
  lemma {:induction false} DividedDifferenceOfConstant(xs: seq<real>, ys: seq<real>, c: real, lo: nat, hi: nat)
    requires lo <= hi < |xs| == |ys| && DistinctWithin(xs, lo, hi)
    requires forall k :: 0 <= k < |ys| ==> ys[k] == c
    ensures DividedDifference(xs, ys, lo, hi) == if lo == hi then c else 0.0
    decreases hi - lo
  {
    if lo < hi {
      DividedDifferenceOfConstant(xs, ys, c, lo + 1, hi);
      DividedDifferenceOfConstant(xs, ys, c, lo, hi - 1);
    }
  }

  /** A Newton form whose only nonzero coefficient is c_0 is the constant c_0. */
  lemma {:induction false} NewtonPrefixOfConstant(xs: seq<real>, cs: seq<real>, hi: nat, t: real)
    requires 1 <= hi <= |xs| && hi <= |cs|
    requires forall k :: 1 <= k < |cs| ==> cs[k] == 0.0
    ensures NewtonPrefix(xs, cs, 0, hi, t) == cs[0]
  {
    if hi > 1 {
      NewtonPrefixOfConstant(xs, cs, hi - 1, t);
    }
  }

  /** Interpolating constant data gives that constant everywhere. */
  lemma NewtonOfConstant(xs: seq<real>, ys: seq<real>, c: real, t: real)
    requires 1 <= |xs| == |ys| && Distinct(xs)
    requires forall k :: 0 <= k < |ys| ==> ys[k] == c
    ensures NewtonForm(xs, Coefficients(xs, ys), t) == c
  {
    var cs := Coefficients(xs, ys);
    forall k | 0 <= k < |cs|
      ensures cs[k] == if k == 0 then c else 0.0
    {
      DividedDifferenceOfConstant(xs, ys, c, 0, k);
    }
    NewtonPrefixOfConstant(xs, cs, |cs|, t);
  }
}
