/** Subset selection: a stable sort of the collected points by distance |x - target|, then
    the first N. The sort is modelled on indices, so that "stable" can be stated: the order is
    by distance and, between equally distant points, by position in the collection. */
module Selection {

  /** One collected observation. */
  datatype Point = Point(x: real, y: real)

  function Distance(p: Point, target: real): (d: real)
    ensures d >= 0.0 && (d == p.x - target || d == target - p.x)
  {
    if p.x - target < 0.0 then target - p.x else p.x - target
  }

  function Min(a: nat, b: nat): nat {
    if a <= b then a else b
  }

  /** The sort key order: strictly closer, or equally close and earlier in the collection. */
  predicate Precedes(ps: seq<Point>, target: real, a: nat, b: nat)
    requires a < |ps| && b < |ps|
  {
    Distance(ps[a], target) < Distance(ps[b], target)
    || (Distance(ps[a], target) == Distance(ps[b], target) && a < b)
  }

  predicate InRange(ps: seq<Point>, order: seq<nat>) {
    forall k :: 0 <= k < |order| ==> order[k] < |ps|
  }

  /** Every earlier entry precedes every later one (so no index repeats). */
  predicate StablySorted(ps: seq<Point>, target: real, order: seq<nat>)
    requires InRange(ps, order)
  {
    forall p, q :: 0 <= p < q < |order| ==> Precedes(ps, target, order[p], order[q])
  }

  /** One insertion step: i goes after every entry at distance <= its own. */
  function Insert(ps: seq<Point>, target: real, order: seq<nat>, i: nat): (r: seq<nat>)
    requires InRange(ps, order) && i < |ps|
    ensures InRange(ps, r) && |r| == |order| + 1
    ensures forall x :: x in r <==> x in order || x == i
  {
    if order == [] then [i]
    else if Distance(ps[order[0]], target) <= Distance(ps[i], target) then
      assert order == [order[0]] + order[1..];
      [order[0]] + Insert(ps, target, order[1..], i)
    else [i] + order
  }

  /** The indices 0 .. m-1 in stable-sorted order. */
  function SortedOrder(ps: seq<Point>, target: real, m: nat): (r: seq<nat>)
    requires m <= |ps|
    ensures InRange(ps, r) && |r| == m
    ensures forall i: nat :: i in r <==> i < m
  {
    if m == 0 then []
    else
      Insert(ps, target, SortedOrder(ps, target, m - 1), m - 1)
  }

  /** The indices of the chosen points, closest first: sorted_data[:N]. */
  function SelectedIndices(ps: seq<Point>, target: real, n: nat): (idx: seq<nat>)
    ensures InRange(ps, idx) && |idx| == Min(n, |ps|)
  {
    SortedOrder(ps, target, |ps|)[..Min(n, |ps|)]
  }

  /** The selected subset: min(N, |ps|) collected points, in selection order. */
  function SelectSubset(ps: seq<Point>, target: real, n: nat): (sub: seq<Point>)
    ensures |sub| == Min(n, |ps|)
    ensures forall k :: 0 <= k < |sub| ==> sub[k] in ps
  {
    var idx := SelectedIndices(ps, target, n);
    seq(|idx|, k requires 0 <= k < |idx| => ps[idx[k]])
  }

  lemma {:induction false} InsertKeepsSorted(ps: seq<Point>, target: real, order: seq<nat>, i: nat)
    requires InRange(ps, order) && i < |ps| && StablySorted(ps, target, order)
    requires forall k :: 0 <= k < |order| ==> order[k] < i
    ensures StablySorted(ps, target, Insert(ps, target, order, i))
    decreases |order|
  {
    if order != [] && Distance(ps[order[0]], target) <= Distance(ps[i], target) {
      var rest := order[1..];
      InsertKeepsSorted(ps, target, rest, i);
      var tail := Insert(ps, target, rest, i);
      forall q | 0 <= q < |tail|
        ensures Precedes(ps, target, order[0], tail[q])
      {
        assert tail[q] in tail;
        if tail[q] != i {
          var p :| 0 <= p < |rest| && rest[p] == tail[q];
          assert order[p + 1] == tail[q];
        }
      }
      ConsSorted(ps, target, order[0], tail);
    } else if order != [] {
      forall q | 0 <= q < |order|
        ensures Precedes(ps, target, i, order[q])
      {
        if q > 0 {
          assert Precedes(ps, target, order[0], order[q]);
        }
      }
      ConsSorted(ps, target, i, order);
    }
  }

  /** An entry that precedes every entry of a stably sorted order can go in front of it. */
  lemma ConsSorted(ps: seq<Point>, target: real, h: nat, tail: seq<nat>)
    requires h < |ps| && InRange(ps, tail) && StablySorted(ps, target, tail)
    requires forall q :: 0 <= q < |tail| ==> Precedes(ps, target, h, tail[q])
    ensures InRange(ps, [h] + tail) && StablySorted(ps, target, [h] + tail)
  {
    var r := [h] + tail;
    assert forall q :: 0 < q < |r| ==> r[q] == tail[q - 1];
  }

  /** The modelled sort is a stable sort by distance. */
  lemma {:induction false} SortedOrderIsStable(ps: seq<Point>, target: real, m: nat)
    requires m <= |ps|
    ensures StablySorted(ps, target, SortedOrder(ps, target, m))
  {
    if m > 0 {
      var prev := SortedOrder(ps, target, m - 1);
      SortedOrderIsStable(ps, target, m - 1);
      forall k | 0 <= k < |prev|
        ensures prev[k] < m - 1
      {
        assert prev[k] in prev;
      }
      InsertKeepsSorted(ps, target, prev, m - 1);
    }
  }

  /** The subset lists points closest first, equally distant ones in collection order. */
  lemma SubsetIsStablySorted(ps: seq<Point>, target: real, n: nat)
    ensures StablySorted(ps, target, SelectedIndices(ps, target, n))
  {
    SortedOrderIsStable(ps, target, |ps|);
  }

  /** No unselected point is strictly closer than a selected one, and an unselected point as
      close as a selected one comes later in the collection. */
  lemma SelectionIsClosest(ps: seq<Point>, target: real, n: nat, a: nat, b: nat)
    requires a in SelectedIndices(ps, target, n)
    requires b < |ps| && b !in SelectedIndices(ps, target, n)
    ensures a < |ps|
    ensures Distance(ps[a], target) <= Distance(ps[b], target)
    ensures Distance(ps[a], target) == Distance(ps[b], target) ==> a < b
  {
    var order := SortedOrder(ps, target, |ps|);
    var cut := Min(n, |ps|);
    SortedOrderIsStable(ps, target, |ps|);
    var p :| 0 <= p < cut && order[p] == a;
    assert b in order;
    var q :| 0 <= q < |order| && order[q] == b;
    assert order[..cut] == SelectedIndices(ps, target, n);
    assert q >= cut;
    assert Precedes(ps, target, order[p], order[q]);
  }

  /** When some collected point lies exactly at the target, the first such point is selected first. */
  lemma ExactMatchSelectedFirst(ps: seq<Point>, target: real, n: nat, i: nat)
    requires n >= 1 && i < |ps| && ps[i].x == target
    requires forall j :: 0 <= j < i ==> ps[j].x != target
    ensures SelectSubset(ps, target, n)[0] == ps[i]
  {
    var order := SortedOrder(ps, target, |ps|);
    SortedOrderIsStable(ps, target, |ps|);
    forall k | 0 < k < |order|
      ensures order[k] != i
    {
      assert Precedes(ps, target, order[0], order[k]);
    }
    assert i in order;
    assert order[0] == i;
  }
}
