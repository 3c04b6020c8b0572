/** The step-by-step narrators: they repeat each evaluator's arithmetic and record every
    intermediate value. Only the numeric trace is modelled, not the text it is rendered into. */
module Narrators {
  import opened Common
  import opened Lagrange
  import opened Newton
  import NewtonEvaluator
  import Equivalence

  /** The numbers shown by the Lagrange derivation: each L_j(t), each y_j * L_j(t), the sum. */
  datatype LagrangeTrace = LagrangeTrace(basis: seq<real>, terms: seq<real>, value: real)

  /** One line of the divided-difference table:
      f[x_lo..x_hi] = (upper - lower) / (x_hi - x_lo) = value. */
  datatype TableEntry = TableEntry(lo: nat, hi: nat, upper: real, lower: real, value: real)

  /** The numbers shown by the Newton derivation: the table entries in the order computed,
      the coefficients c_k, each Horner accumulator after a step, and the final value. */
  datatype NewtonTrace = NewtonTrace(entries: seq<TableEntry>, coefficients: seq<real>, horner: seq<real>, value: real)

  /** A narrated table line states a true divided difference and its two operands. */
  predicate EntryCorrect(xs: seq<real>, ys: seq<real>, e: TableEntry)
    requires |xs| == |ys| && Distinct(xs)
  {
    e.lo < e.hi < |xs|
    && e.value == DividedDifference(xs, ys, e.lo, e.hi)
    && e.upper == DividedDifference(xs, ys, e.lo + 1, e.hi)
    && e.lower == DividedDifference(xs, ys, e.lo, e.hi - 1)
  }

  /** Every narrated table line is a true divided difference with its operands. */
  predicate TableLines(xs: seq<real>, ys: seq<real>, entries: seq<TableEntry>)
    requires |xs| == |ys| && Distinct(xs)
  {
    forall k :: 0 <= k < |entries| ==> EntryCorrect(xs, ys, entries[k])
  }

  /** Line m of order j: the window of width j whose top slot is n-1-m, correctly computed. */
  predicate OrderLine(xs: seq<real>, ys: seq<real>, j: nat, m: nat, e: TableEntry)
    requires |xs| == |ys| && Distinct(xs)
  {
    EntryCorrect(xs, ys, e) && e.hi + m + 1 == |xs| && e.lo + j == e.hi
  }

  /** The lines of order j in the order narrated: top slot n-1 first, then n-2, and so on. */
  predicate OrderLines(xs: seq<real>, ys: seq<real>, j: nat, entries: seq<TableEntry>)
    requires |xs| == |ys| && Distinct(xs)
  {
    forall m :: 0 <= m < |entries| ==> OrderLine(xs, ys, j, m, entries[m])
  }

  lemma AppendLine(xs: seq<real>, ys: seq<real>, j: nat, entries: seq<TableEntry>, e: TableEntry)
    requires |xs| == |ys| && Distinct(xs)
    requires OrderLines(xs, ys, j, entries) && OrderLine(xs, ys, j, |entries|, e)
    ensures OrderLines(xs, ys, j, entries + [e])
  {
    assert forall m :: 0 <= m < |entries| ==> (entries + [e])[m] == entries[m];
  }

  /** The windows (lo, hi) of a list of table lines, in the order they were recorded. */
  function Windows(entries: seq<TableEntry>): (w: seq<(nat, nat)>)
    ensures |w| == |entries|
    ensures forall k :: 0 <= k < |entries| ==> w[k] == (entries[k].lo, entries[k].hi)
  {
    seq(|entries|, k requires 0 <= k < |entries| => (entries[k].lo, entries[k].hi))
  }

  lemma WindowsAppend(a: seq<TableEntry>, b: seq<TableEntry>)
    ensures Windows(a + b) == Windows(a) + Windows(b)
  {
    assert forall k :: 0 <= k < |a + b| ==> Windows(a + b)[k] == (Windows(a) + Windows(b))[k];
  }

  /** The windows one order j of an n-point table records, top slot first:
      (n-1-j, n-1), (n-2-j, n-2), ..., (0, j). */
  function OrderWindows(n: nat, j: nat): seq<(nat, nat)>
    requires j <= n
  {
    seq(n - j, m requires 0 <= m < n - j => (n - 1 - m - j, n - 1 - m))
  }

  /** The windows of orders 1 .. j-1, one order after the other. */
  function TableWindows(n: nat, j: nat): seq<(nat, nat)>
    requires 1 <= j <= n
    decreases j
  {
    if j == 1 then [] else TableWindows(n, j - 1) + OrderWindows(n, j - 1)
  }

  /** Orders 1 .. j-1 record (j-1)(2n-j)/2 lines, each a genuine window of width below j, and
      every such window among them; for j = n that is every window lo < hi < n, n(n-1)/2 lines. */
  lemma TableWindowsComplete(n: nat, j: nat)
    requires 1 <= j <= n
    ensures 2 * |TableWindows(n, j)| == (j - 1) * (2 * n - j)
    ensures forall w :: w in TableWindows(n, j) ==> w.0 < w.1 < n && w.1 - w.0 < j
    ensures forall lo: nat, hi: nat :: lo < hi < n && hi - lo < j ==> (lo, hi) in TableWindows(n, j)
  {
    TableWindowsCount(n, j);
    TableWindowsSound(n, j);
    TableWindowsCover(n, j);
  }

  lemma {:induction false} TableWindowsCount(n: nat, j: nat)
    requires 1 <= j <= n
    ensures 2 * |TableWindows(n, j)| == (j - 1) * (2 * n - j)
    decreases j
  {
    if j > 1 {
      TableWindowsCount(n, j - 1);
      assert |TableWindows(n, j)| == |TableWindows(n, j - 1)| + (n - (j - 1));
      assert (j - 2) * (2 * n - j + 1) + 2 * (n - j + 1) == (j - 1) * (2 * n - j);
    }
  }

  lemma {:induction false} TableWindowsSound(n: nat, j: nat)
    requires 1 <= j <= n
    ensures forall w :: w in TableWindows(n, j) ==> w.0 < w.1 < n && w.1 - w.0 < j
    decreases j
  {
    if j > 1 {
      TableWindowsSound(n, j - 1);
      var prev, last := TableWindows(n, j - 1), OrderWindows(n, j - 1);
      assert TableWindows(n, j) == prev + last;
      forall w: (nat, nat) | w in prev + last
        ensures w.0 < w.1 < n && w.1 - w.0 < j
      {
        if w !in prev {
          var m :| 0 <= m < |last| && last[m] == w;
        }
      }
    }
  }

  lemma {:induction false} TableWindowsCover(n: nat, j: nat)
    requires 1 <= j <= n
    ensures forall lo: nat, hi: nat :: lo < hi < n && hi - lo < j ==> (lo, hi) in TableWindows(n, j)
    decreases j
  {
    if j > 1 {
      TableWindowsCover(n, j - 1);
      var prev, last := TableWindows(n, j - 1), OrderWindows(n, j - 1);
      assert TableWindows(n, j) == prev + last;
      forall lo: nat, hi: nat | lo < hi < n && hi - lo < j
        ensures (lo, hi) in prev + last
      {
        if hi - lo == j - 1 {
          assert last[n - 1 - hi] == (lo, hi);
        } else {
          assert (lo, hi) in prev;
        }
      }
    }
  }

  /** The whole table of an n-point narration: n(n-1)/2 lines covering every window lo < hi < n. */
  lemma TableWindowsAll(n: nat)
    requires 1 <= n
    ensures 2 * |TableWindows(n, n)| == n * (n - 1)
    ensures forall w :: w in TableWindows(n, n) ==> w.0 < w.1 < n
    ensures forall lo: nat, hi: nat :: lo < hi < n ==> (lo, hi) in TableWindows(n, n)
  {
    TableWindowsComplete(n, n);
    assert (n - 1) * (2 * n - n) == n * (n - 1);
  }

  /** Appending a complete order j to the lines of orders 1 .. j-1 gives the lines of orders 1 .. j. */
  lemma AppendOrder(xs: seq<real>, ys: seq<real>, j: nat, entries: seq<TableEntry>, recorded: seq<TableEntry>)
    requires |xs| == |ys| && Distinct(xs) && 1 <= j < |xs|
    requires TableLines(xs, ys, entries) && Windows(entries) == TableWindows(|xs|, j)
    requires OrderLines(xs, ys, j, recorded) && |recorded| == |xs| - j
    ensures TableLines(xs, ys, entries + recorded)
    ensures Windows(entries + recorded) == TableWindows(|xs|, j + 1)
  {
    WindowsAppend(entries, recorded);
    var n := |xs|;
    assert forall m :: 0 <= m < n - j ==> Windows(recorded)[m] == OrderWindows(n, j)[m];
    assert Windows(recorded) == OrderWindows(n, j);
    forall k | 0 <= k < |entries + recorded|
      ensures EntryCorrect(xs, ys, (entries + recorded)[k])
    {
      if k < |entries| {
        assert (entries + recorded)[k] == entries[k];
      } else {
        assert (entries + recorded)[k] == recorded[k - |entries|];
        assert OrderLine(xs, ys, j, k - |entries|, recorded[k - |entries|]);
      }
    }
  }

  /** tr is the Lagrange derivation of (xs, ys) at t: each L_j(t), each y_j * L_j(t), and
      the interpolant as the final value. */
  predicate LagrangeTraceOf(xs: seq<real>, ys: seq<real>, t: real, tr: LagrangeTrace) {
    |xs| == |ys| && Distinct(xs)
    && |tr.basis| == |tr.terms| == |xs|
    && (forall j :: 0 <= j < |xs| ==> tr.basis[j] == Basis(xs, j, |xs|, t))
    && (forall j :: 0 <= j < |xs| ==> tr.terms[j] == ys[j] * tr.basis[j])
    && tr.value == LagrangeValue(xs, ys, t)
  }

  /** tr is the Newton derivation of (xs, ys) at t: every table line of orders 1 .. n-1 in the
      order computed, the coefficients f[x_0..x_k], each Horner step, and the interpolant. */
  predicate NewtonTraceOf(xs: seq<real>, ys: seq<real>, t: real, tr: NewtonTrace) {
    1 <= |xs| == |ys| && Distinct(xs)
    && TableLines(xs, ys, tr.entries)
    && Windows(tr.entries) == TableWindows(|xs|, |xs|)
    && tr.coefficients == Coefficients(xs, ys)
    && |tr.horner| == |xs| - 1
    && (forall m :: 0 <= m < |tr.horner| ==> tr.horner[m] == NewtonPrefix(xs, tr.coefficients, |xs| - 2 - m, |xs|, t))
    && tr.value == NewtonForm(xs, Coefficients(xs, ys), t)
    && tr.value == LagrangeValue(xs, ys, t)
  }

  /** generate_lagrange_solution (numeric trace): the same basis products and accumulation
      as lagrange_interpolation, so its final value is the evaluator's result. */
  method NarrateLagrange(xs: seq<real>, ys: seq<real>, t: real) returns (trace: LagrangeTrace)
    requires |xs| == |ys| && Distinct(xs)
    ensures LagrangeTraceOf(xs, ys, t, trace)
  {
    assert RowsDistinct(xs, |xs|);
    var basis, terms, p := NarrateTerms(xs, ys, t);
    trace := LagrangeTrace(basis, terms, p);
    assert forall j :: 0 <= j < |xs| ==> TermLine(xs, ys, t, j, basis[j], terms[j]);
  }

  /** Line j of the Lagrange derivation: the basis value L_j(t) and the term y_j * L_j(t). */
  predicate TermLine(xs: seq<real>, ys: seq<real>, t: real, j: nat, b: real, term: real) {
    j < |xs| == |ys| && RowDistinct(xs, j, |xs|) && b == Basis(xs, j, |xs|, t) && term == ys[j] * b
  }

  /** The outer loop of generate_lagrange_solution: for each j, L_j(t), the term y_j * L_j(t),
      and the running sum. */
  method NarrateTerms(xs: seq<real>, ys: seq<real>, t: real) returns (basis: seq<real>, terms: seq<real>, p: real)
    requires |xs| == |ys| && RowsDistinct(xs, |xs|)
    ensures |basis| == |terms| == |xs|
    ensures forall k :: 0 <= k < |xs| ==> TermLine(xs, ys, t, k, basis[k], terms[k])
    ensures p == LagrangeSum(xs, ys, |xs|, t)
  {
    var n := |xs|;
    p := 0.0;
    basis := [];
    terms := [];
    var j := 0;
    while j < n
      invariant 0 <= j <= n
      invariant |basis| == |terms| == j
      invariant forall k :: 0 <= k < j ==> TermLine(xs, ys, t, k, basis[k], terms[k])
      invariant RowsDistinct(xs, j) && p == LagrangeSum(xs, ys, j, t)
    {
      var l := NarrateBasis(xs, j, t);
      var term := ys[j] * l;
      assert TermLine(xs, ys, t, j, l, term);
      basis := basis + [l];
      terms := terms + [term];
      p := p + term;
      j := j + 1;
    }
  }

  /** The inner loop of generate_lagrange_solution: L_j(t) as a running product of
      (t - x_i) / (x_j - x_i) over i != j. */
  method NarrateBasis(xs: seq<real>, j: nat, t: real) returns (l: real)
    requires j < |xs| && RowDistinct(xs, j, |xs|)
    ensures l == Basis(xs, j, |xs|, t)
  {
    var n := |xs|;
    l := 1.0;
    var i := 0;
    while i < n
      invariant 0 <= i <= n
      invariant l == Basis(xs, j, i, t)
    {
      if i != j {
        var num := t - xs[i];
        var denom := xs[j] - xs[i];
        l := l * (num / denom);
        assert l == Basis(xs, j, i + 1, t);
      }
      i := i + 1;
    }
  }

  /** generate_divided_diff_solution (numeric trace): the same in-place table as
      divided_difference_interpolation, the coefficient list read off the buffer after each
      order, and Horner's method on that list. */
  method NarrateDividedDifference(xs: seq<real>, ys: seq<real>, t: real) returns (trace: NewtonTrace)
    requires 1 <= |xs| == |ys| && Distinct(xs)
    ensures NewtonTraceOf(xs, ys, t, trace)
    ensures 2 * |trace.entries| == |xs| * (|xs| - 1)
    ensures forall lo: nat, hi: nat :: lo < hi < |xs| ==> (lo, hi) in Windows(trace.entries)
  {
    var entries, coefficients := NarrateTable(xs, ys);
    TableWindowsAll(|xs|);
    var horner, p := NarrateHorner(xs, coefficients, t);
    Equivalence.NewtonEqualsLagrange(xs, ys, t);
    trace := NewtonTrace(entries, coefficients, horner, p);
  }

  /** The table part of generate_divided_diff_solution: orders 1 .. n-1 in place on a copy of
      the y-values, every update recorded, and coef[j] appended after order j. */
  method NarrateTable(xs: seq<real>, ys: seq<real>) returns (entries: seq<TableEntry>, coefficients: seq<real>)
    requires 1 <= |xs| == |ys| && Distinct(xs)
    ensures TableLines(xs, ys, entries)
    ensures Windows(entries) == TableWindows(|xs|, |xs|)
    ensures coefficients == Coefficients(xs, ys)
  {
    var n := |xs|;
    var coef := new real[n];
    forall k | 0 <= k < n {
      coef[k] := ys[k];
    }
    assert coef[..] == ys;
    entries := [];
    coefficients := [coef[0]];
    var j := 1;
    while j < n
      invariant 1 <= j <= n
      invariant TableProgress(xs, ys, coef[..], j, entries, coefficients)
    {
      entries, coefficients := NarrateNextOrder(xs, ys, coef, j, entries, coefficients);
      j := j + 1;
    }
  }

  /** The state of the table narration once orders 1 .. j-1 are done: the buffer holds those
      orders, the first j coefficients are known and every window recorded so far is correct. */
  ghost predicate TableProgress(xs: seq<real>, ys: seq<real>, c: seq<real>, j: nat,
                                entries: seq<TableEntry>, coefficients: seq<real>)
    requires |xs| == |ys| == |c| && Distinct(xs)
  {
    1 <= j <= |xs|
    && NewtonEvaluator.TableAfter(xs, ys, c, j - 1, 0, |xs|)
    && coefficients == Coefficients(xs, ys)[..j]
    && TableLines(xs, ys, entries)
    && Windows(entries) == TableWindows(|xs|, j)
  }

  /** One pass of the table loop: order j is computed and narrated, then coef[j] is appended. */
  method NarrateNextOrder(xs: seq<real>, ys: seq<real>, coef: array<real>, j: nat,
                          entries: seq<TableEntry>, coefficients: seq<real>)
    returns (entries': seq<TableEntry>, coefficients': seq<real>)
    requires |xs| == |ys| == coef.Length && Distinct(xs) && j < |xs|
    requires TableProgress(xs, ys, coef[..], j, entries, coefficients)
    modifies coef
    ensures TableProgress(xs, ys, coef[..], j + 1, entries', coefficients')
  {
    var recorded := NarrateOrder(xs, ys, coef, j);
    AppendOrder(xs, ys, j, entries, recorded);
    entries' := entries + recorded;
    assert NewtonEvaluator.WindowStart(j, j) == 0;
    coefficients' := coefficients + [coef[j]];
    assert coefficients' == Coefficients(xs, ys)[..j + 1];
  }

  /** One order j of the table in generate_divided_diff_solution: slots n-1 down to j are
      recomputed in place and each recomputation is recorded with its two operands. */
  method NarrateOrder(xs: seq<real>, ys: seq<real>, coef: array<real>, j: nat) returns (entries: seq<TableEntry>)
    requires |xs| == |ys| == coef.Length && Distinct(xs) && 1 <= j < |xs|
    requires NewtonEvaluator.TableAfter(xs, ys, coef[..], j - 1, 0, |xs|)
    modifies coef
    ensures NewtonEvaluator.TableAfter(xs, ys, coef[..], j, 0, |xs|)
    ensures forall k :: 0 <= k < j ==> coef[k] == old(coef[k])
    ensures OrderLines(xs, ys, j, entries) && |entries| == |xs| - j
  {
    var n := |xs|;
    entries := [];
    var i := n - 1;
    while i >= j
      invariant j - 1 <= i <= n - 1
      invariant NewtonEvaluator.TableAfter(xs, ys, coef[..], j, i + 1, n)
      invariant NewtonEvaluator.TableAfter(xs, ys, coef[..], j - 1, 0, i + 1)
      invariant forall k :: 0 <= k <= i ==> coef[k] == old(coef[k])
      invariant OrderLines(xs, ys, j, entries) && |entries| == n - 1 - i
    {
      var oldVal := coef[i];
      var oldPrev := coef[i - 1];
      NewtonEvaluator.TableStep(xs, ys, coef[..], j, i);
      coef[i] := (coef[i] - coef[i - 1]) / (xs[i] - xs[i - j]);
      assert NewtonEvaluator.WindowStart(i, j - 1) == i - j + 1;
      assert NewtonEvaluator.WindowStart(i - 1, j - 1) == i - j;
      var line := TableEntry(i - j, i, oldVal, oldPrev, coef[i]);
      assert OrderLine(xs, ys, j, |entries|, line);
      AppendLine(xs, ys, j, entries, line);
      entries := entries + [line];
      i := i - 1;
    }
    NewtonEvaluator.OrderDone(xs, ys, coef[..], j);
  }

  /** The Horner part of generate_divided_diff_solution: starting from c_{n-1}, each step
      P := P * (t - x_i) + c_i is recorded; step m leaves the Newton form with base point n-2-m. */
  method NarrateHorner(xs: seq<real>, cs: seq<real>, t: real) returns (horner: seq<real>, p: real)
    requires 1 <= |cs| <= |xs|
    ensures |horner| == |cs| - 1
    ensures forall m :: 0 <= m < |horner| ==> horner[m] == NewtonPrefix(xs, cs, |cs| - 2 - m, |cs|, t)
    ensures p == NewtonForm(xs, cs, t)
  {
    var n := |cs|;
    p := cs[n - 1];
    horner := [];
    var i := n - 1;
    while i > 0
      invariant 0 <= i <= n - 1
      invariant |horner| == n - 1 - i
      invariant forall m :: 0 <= m < |horner| ==> horner[m] == NewtonPrefix(xs, cs, n - 2 - m, n, t)
      invariant p == NewtonPrefix(xs, cs, i, n, t)
    {
      i := i - 1;
      HornerStep(xs, cs, i, n, t);
      p := p * (t - xs[i]) + cs[i];
      horner := horner + [p];
    }
  }
}
