/** Identities of real arithmetic used by the interpolation proofs, stated on plain variables
    so that each one is proved once, away from the recursive definitions. */
module Algebra {

  lemma MulAssoc(a: real, b: real, c: real)
    ensures (a * b) * c == a * (b * c)
  {
  }

  lemma Distribute(a: real, b: real, c: real)
    ensures a * (b + c) == a * b + a * c
  {
  }

  lemma DivCancel(a: real, d: real, e: real)
    requires d != 0.0 && a == d * e
    ensures a / d == e
  {
  }

  lemma ScaleRatio(y: real, u: real, w: real)
    requires w != 0.0
    ensures y * (u / w) == u * (y / w)
  {
  }

  lemma RatioProduct(u: real, w: real, a: real, b: real)
    requires w != 0.0 && b != 0.0
    ensures (u / w) * (a / b) == (u * a) / (w * b)
  {
  }

  /** y/a - y/b over the common multiple c = p*a = b*q. */
  lemma ReciprocalDifference(y: real, a: real, b: real, c: real, p: real, q: real)
    requires a != 0.0 && b != 0.0 && c != 0.0
    requires c == p * a && c == b * q
    ensures y / a - y / b == (p - q) * (y / c)
  {
    assert y / a == p * (y / c);
    assert y / b == q * (y / c);
  }

  /** Adding the factor (t - xk)/(xj - xk) to a basis product u/w changes it by
      u (t - xj) / (w (xj - xk)). */
  lemma BasisIncrement(y: real, u: real, w: real, t: real, xj: real, xk: real, om: real)
    requires w != 0.0 && xj != xk
    requires om == u * (t - xj)
    ensures y * ((u * (t - xk)) / (w * (xj - xk))) - y * (u / w) == om * (y / (w * (xj - xk)))
  {
    var d := w * (xj - xk);
    assert d != 0.0;
    assert u / w == (u * (xj - xk)) / d;
    assert (u * (t - xk)) / d - (u * (xj - xk)) / d == (u * (t - xj)) / d;
  }

  /** Regrouping one Horner step: c0 + d*tail + c*(d*w) == c0 + d*(tail + c*w). */
  lemma HornerRegroup(c0: real, d: real, tail: real, c: real, w: real)
    ensures (c0 + d * tail) + c * (d * w) == c0 + d * (tail + c * w)
  {
    MulAssoc(c, d, w);
    MulAssoc(d, c, w);
    Distribute(d, tail, c * w);
  }

  /** Two running differences that are both k times a running sum stay so after one more term. */
  lemma ScaledDifferenceStep(a: real, b: real, s: real, da: real, db: real, ds: real, k: real)
    requires a - b == k * s && da - db == k * ds
    ensures (a + da) - (b + db) == k * (s + ds)
  {
    Distribute(k, s, ds);
  }
}
