/** The SmartTrendExtrapolator session object of home.py: collected points, configuration,
    the selected subset, the stored predictions and the last solution narrative, updated in
    place by its operations. */
module Session {
  import opened Common
  import opened Selection
  import opened Risk
  import Lagrange
  import NewtonEvaluator
  import Narrators

  datatype Option<+T> = None | Some(value: T)

  /** The configuration dictionary; target is the extrapolation value, unset at start. */
  datatype Config = Config(xTitle: string, yTitle: string, methodName: string, numPoints: int, target: Option<real>)

  /** What last_solution holds: nothing yet, a narrated computation, or an error text. */
  datatype Solution =
    | NoSolution
    | LagrangeSteps(lagrange: Narrators.LagrangeTrace)
    | NewtonSteps(newton: Narrators.NewtonTrace)
    | ErrorText(error: Error)

  /** One stored prediction record. */
  datatype Prediction = Prediction(x: real, y: real, methodName: string, subsetSize: nat, risk: Assessment, solution: Solution)

  /** Why extrapolate_and_store returned without doing anything. */
  datatype Skip = NoSubsetSelected | NoTargetSet

  /** How a call of extrapolate_and_store ended: an early return, a stored prediction, or an
      exception re-raised after recording its text. */
  datatype StoreOutcome = Skipped(reason: Skip) | Stored(prediction: Prediction) | Raised(error: Error)

  const LagrangeName: string := "Lagrange"
  const DividedDifferenceName: string := "Divided Difference"

  predicate KnownMethod(name: string) {
    name == LagrangeName || name == DividedDifferenceName
  }

  function Xs(ps: seq<Point>): (xs: seq<real>)
    ensures |xs| == |ps| && forall k :: 0 <= k < |ps| ==> xs[k] == ps[k].x
  {
    seq(|ps|, k requires 0 <= k < |ps| => ps[k].x)
  }

  function Ys(ps: seq<Point>): (ys: seq<real>)
    ensures |ys| == |ps| && forall k :: 0 <= k < |ps| ==> ys[k] == ps[k].y
  {
    seq(|ps|, k requires 0 <= k < |ps| => ps[k].y)
  }

  /** get_max_x: the largest x among the points, 0 when there are none. */
  function MaxX(ps: seq<Point>): (m: real)
    ensures ps == [] ==> m == 0.0
    ensures forall k :: 0 <= k < |ps| ==> ps[k].x <= m
    ensures ps != [] ==> exists k :: 0 <= k < |ps| && ps[k].x == m
  {
    if |ps| == 0 then 0.0
    else if |ps| == 1 then ps[0].x
    else
      var rest := MaxX(ps[1..]);
      assert forall k :: 1 <= k < |ps| ==> ps[k] == ps[1..][k - 1];
      if ps[0].x >= rest then ps[0].x else rest
  }

  /** The subset size set_configuration stores: the request, clamped between 2 and the number
      of collected points (2 wins when fewer than 2 points are available). */
  function ClampSubsetSize(requested: int, available: int): (k: int)
    ensures k >= 2
    ensures requested < 2 || available < 2 ==> k == 2
    ensures 2 <= requested <= available ==> k == requested
    ensures 2 <= available < requested ==> k == available
  {
    var low := if available <= requested then available else requested;
    if low < 2 then 2 else low
  }

  /** A stored prediction is consistent: its risk is the assessment of its value, it came from
      at least two points, and its solution narrates the method it names and ends at its value. */
  predicate Consistent(p: Prediction) {
    p.risk == AssessKoiRisk(p.y)
    && p.subsetSize >= 2
    && match p.solution
       case LagrangeSteps(tr) => p.methodName == LagrangeName && tr.value == p.y
       case NewtonSteps(tr) => p.methodName == DividedDifferenceName && tr.value == p.y
       case _ => false
  }

  /** The solution is the narrator's derivation, for the method named, of the same inputs. */
  predicate Narrates(methodName: string, xs: seq<real>, ys: seq<real>, t: real, solution: Solution) {
    match solution
    case LagrangeSteps(tr) => methodName == LagrangeName && Narrators.LagrangeTraceOf(xs, ys, t, tr)
    case NewtonSteps(tr) => methodName == DividedDifferenceName && Narrators.NewtonTraceOf(xs, ys, t, tr)
    case _ => false
  }

  /** The value an evaluator returned together with the narrative of the same computation. */
  datatype Computed = Computed(y: real, solution: Solution)

  /** The try-block of extrapolate_and_store: the evaluator the method name selects, then its
      narrator; unknown names and evaluator errors are reported as the error raised. */
  method Dispatch(methodName: string, xs: seq<real>, ys: seq<real>, t: real) returns (r: Result<Computed>)
    requires |xs| == |ys|
    ensures r == Failure(UnknownMethod(methodName)) <==> !KnownMethod(methodName)
    ensures r == Failure(DegenerateInput) <==> KnownMethod(methodName) && |xs| < 2
    ensures r == Failure(DuplicateAbscissa) <==> KnownMethod(methodName) && |xs| >= 2 && !Distinct(xs)
    ensures r.Success? <==> KnownMethod(methodName) && |xs| >= 2 && Distinct(xs)
    ensures r.Success? ==> r.value.y == Lagrange.LagrangeValue(xs, ys, t)
    ensures r.Success? ==> Consistent(Prediction(t, r.value.y, methodName, |xs|, AssessKoiRisk(r.value.y), r.value.solution))
    ensures r.Success? ==> Narrates(methodName, xs, ys, t, r.value.solution)
  {
    if methodName == LagrangeName {
      var v := Lagrange.Interpolate(xs, ys, t);
      if v.Failure? {
        return Failure(v.error);
      }
      var trace := Narrators.NarrateLagrange(xs, ys, t);
      r := Success(Computed(v.value, LagrangeSteps(trace)));
    } else if methodName == DividedDifferenceName {
      var v := NewtonEvaluator.Interpolate(xs, ys, t);
      if v.Failure? {
        return Failure(v.error);
      }
      var trace := Narrators.NarrateDividedDifference(xs, ys, t);
      r := Success(Computed(v.value, NewtonSteps(trace)));
    } else {
      r := Failure(UnknownMethod(methodName));
    }
  }

  lemma AppendConsistent(ps: seq<Prediction>, p: Prediction)
    requires forall k :: 0 <= k < |ps| ==> Consistent(ps[k])
    requires Consistent(p)
    ensures forall k :: 0 <= k < |ps| + 1 ==> Consistent((ps + [p])[k])
  {
  }

  class SmartTrendExtrapolator {
    var dataPoints: seq<Point>
    var config: Config
    var subset: seq<Point>
    var predictions: seq<Prediction>
    var lastSolution: Solution

    /** The session invariant: the subset size is at least 2, a selected subset has at least
        2 points, and every stored prediction is consistent. */
    predicate Valid()
      reads this
    {
      config.numPoints >= 2
      && |subset| != 1
      && forall k :: 0 <= k < |predictions| ==> Consistent(predictions[k])
    }

    /** The subset and the target are both there, so extrapolation gets past its early returns. */
    predicate Ready()
      reads this
    {
      subset != [] && config.target.Some?
    }

    constructor ()
      ensures Valid()
      ensures dataPoints == [] && subset == [] && predictions == [] && lastSolution == NoSolution
      ensures config == Config("Time", "Value", LagrangeName, 5, None)
    {
      dataPoints := [];
      config := Config("Time", "Value", LagrangeName, 5, None);
      subset := [];
      predictions := [];
      lastSolution := NoSolution;
    }

    /** collect_data_points: replaces the collection by the given pairs, in order. */
    method CollectDataPoints(data: seq<(real, real)>)
      requires Valid()
      modifies this
      ensures Valid()
      ensures |dataPoints| == |data|
      ensures forall k :: 0 <= k < |data| ==> dataPoints[k] == Point(data[k].0, data[k].1)
      ensures config == old(config) && subset == old(subset)
      ensures predictions == old(predictions) && lastSolution == old(lastSolution)
    {
      dataPoints := seq(|data|, k requires 0 <= k < |data| => Point(data[k].0, data[k].1));
    }

    /** set_prediction_horizon: the target becomes the largest collected x plus the horizon. */
    method SetPredictionHorizon(horizon: real) returns (target: real)
      requires Valid()
      modifies this
      ensures Valid()
      ensures target == MaxX(dataPoints) + horizon
      ensures forall k :: 0 <= k < |dataPoints| ==> dataPoints[k].x + horizon <= target
      ensures config == old(config).(target := Some(target))
      ensures dataPoints == old(dataPoints) && subset == old(subset)
      ensures predictions == old(predictions) && lastSolution == old(lastSolution)
    {
      target := MaxX(dataPoints) + horizon;
      config := config.(target := Some(target));
    }

    /** set_configuration: stores titles, method name and target, and the clamped subset size. */
    method SetConfiguration(xTitle: string, yTitle: string, methodName: string, numPoints: int, predictX: real)
      requires Valid()
      modifies this
      ensures Valid()
      ensures config == Config(xTitle, yTitle, methodName, ClampSubsetSize(numPoints, |dataPoints|), Some(predictX))
      ensures dataPoints == old(dataPoints) && subset == old(subset)
      ensures predictions == old(predictions) && lastSolution == old(lastSolution)
    {
      config := Config(xTitle, yTitle, methodName, ClampSubsetSize(numPoints, |dataPoints|), Some(predictX));
    }

    /** select_extrapolation_subset: with at least 2 points and a target, the subset becomes
        the numPoints points closest to the target, stably sorted by distance; otherwise the
        call raises and the subset is left as it was. */
    method SelectExtrapolationSubset() returns (o: Outcome)
      requires Valid()
      modifies this
      ensures Valid()
      ensures o == Fail(InsufficientData) <==> |dataPoints| < 2
      ensures o == Fail(TargetNotSet) <==> |dataPoints| >= 2 && config.target.None?
      ensures o == Pass <==> |dataPoints| >= 2 && config.target.Some?
      ensures o.Fail? ==> subset == old(subset)
      ensures o == Pass ==> subset == SelectSubset(dataPoints, config.target.value, config.numPoints)
      ensures o == Pass ==> 2 <= |subset| <= config.numPoints
      ensures dataPoints == old(dataPoints) && config == old(config)
      ensures predictions == old(predictions) && lastSolution == old(lastSolution)
    {
      if |dataPoints| < 2 {
        return Fail(InsufficientData);
      }
      if config.target.None? {
        return Fail(TargetNotSet);
      }
      subset := SelectSubset(dataPoints, config.target.value, config.numPoints);
      o := Pass;
    }

    /** extrapolate_and_store: runs the configured evaluator on the subset at the target,
        narrates the same computation, and appends one prediction; an evaluator error or an
        unknown method name is recorded as the last solution and raised, storing nothing. */
    method ExtrapolateAndStore() returns (o: StoreOutcome)
      requires Valid()
      modifies this
      ensures Valid()
      ensures dataPoints == old(dataPoints) && config == old(config) && subset == old(subset)
      ensures o == Skipped(NoSubsetSelected) <==> subset == []
      ensures o == Skipped(NoTargetSet) <==> subset != [] && config.target.None?
      ensures o == Raised(UnknownMethod(config.methodName)) <==> Ready() && !KnownMethod(config.methodName)
      ensures o == Raised(DegenerateInput) <==> Ready() && KnownMethod(config.methodName) && |subset| < 2
      ensures o == Raised(DuplicateAbscissa) <==>
        Ready() && KnownMethod(config.methodName) && |subset| >= 2 && !Distinct(Xs(subset))
      ensures o.Stored? <==> Ready() && KnownMethod(config.methodName) && |subset| >= 2 && Distinct(Xs(subset))
      ensures o.Skipped? ==> predictions == old(predictions) && lastSolution == old(lastSolution)
      ensures o.Raised? ==> predictions == old(predictions) && lastSolution == ErrorText(o.error)
      ensures o.Stored? ==>
        predictions == old(predictions) + [o.prediction]
        && lastSolution == o.prediction.solution
        && o.prediction.x == config.target.value
        && o.prediction.y == Lagrange.LagrangeValue(Xs(subset), Ys(subset), config.target.value)
        && o.prediction.methodName == config.methodName
        && o.prediction.subsetSize == |subset|
        && o.prediction.risk == AssessKoiRisk(o.prediction.y)
        && Narrates(config.methodName, Xs(subset), Ys(subset), config.target.value, o.prediction.solution)
      ensures o.Stored? ==> forall k :: 0 <= k < |subset| && subset[k].x == config.target.value ==>
        o.prediction.y == subset[k].y
    {
      if subset == [] {
        return Skipped(NoSubsetSelected);
      }
      var xs, ys := Xs(subset), Ys(subset);
      if config.target.None? {
        return Skipped(NoTargetSet);
      }
      var t := config.target.value;
      var r := Dispatch(config.methodName, xs, ys, t);
      if r.Failure? {
        lastSolution := ErrorText(r.error);
        return Raised(r.error);
      }
      var y, solution := r.value.y, r.value.solution;
      forall k | 0 <= k < |subset| && subset[k].x == t
        ensures y == subset[k].y
      {
        Lagrange.LagrangeInterpolates(xs, ys, k);
      }
      var p := Prediction(t, y, config.methodName, |subset|, AssessKoiRisk(y), solution);
      AppendConsistent(predictions, p);
      lastSolution := solution;
      predictions := predictions + [p];
      o := Stored(p);
    }
  }
}
