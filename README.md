# SmartTrend extrapolation core, modelled in Dafny

SmartTrend predicts a future dissolved-oxygen reading from a short time series. It fits the
interpolating polynomial through the N collected points closest to a target time and evaluates
that polynomial at the target. It then grades the predicted value against the oxygen bands for
koi. The model covers:

- **The two evaluators.** `lagrange_interpolation` is modelled in module `Lagrange`.
  `divided_difference_interpolation` is modelled in module `NewtonEvaluator`: an in-place
  coefficient buffer (`array<real>`), followed by Horner's method.
- **The mathematics behind the evaluators.**
  - `Newton` holds the recursive divided difference, the Newton form and Horner's identity.
  - `Equivalence` proves that, with distinct abscissae, both evaluators compute the same
    polynomial.
  - The proof shows that every divided difference equals the symmetric sum
    `sum_j y_j / prod_{m != j} (x_j - x_m)`.
  - It also shows that adding node k to a Lagrange sum adds exactly
    `f[x_0..x_k] (t - x_0)...(t - x_{k-1})`.
  - `Algebra` holds the real-arithmetic identities these proofs rely on.
- **The session object `SmartTrendExtrapolator`** (module `Session`). It is a class whose
  fields are the collected points, the configuration, the selected subset, the stored
  predictions and the last solution. Its methods follow `__init__`, `collect_data_points`,
  `get_max_x`, `set_prediction_horizon`, `set_configuration`, `select_extrapolation_subset` and
  `extrapolate_and_store`.
- **Subset selection** (module `Selection`). It is a stable sort of the collected points by
  `|x - target|`, followed by taking the first N. The sort is written as an insertion sort over
  indices, which lets "stable" be stated: the order is by distance, and equally distant points
  keep their collection order.
- **The pure rules** (module `Risk`). These are the koi risk bands of `assess_koi_risk` and the
  choices that `generate_interpretation` makes: direction, change, horizon, both statuses and
  the warning.
- **The two step-by-step narrators** (module `Narrators`). They re-run the evaluators'
  arithmetic and record a numeric trace: basis values and terms, the divided-difference table
  entries with their operands, the coefficient list, and the Horner steps. The model proves
  that every value a narrator reports is the one the evaluator's computation on the same
  inputs gives, in the order reported, and that each trace ends at the evaluator's value.

All arithmetic is over `real`, so every stated equality is exact. Python raises several kinds of
exception; the model reports them as `Common.Error` values inside a `Result` or `Outcome`:

| Error | When Python raises it |
|---|---|
| `DegenerateInput` | fewer than 2 points, or lengths differ |
| `DuplicateAbscissa` | a zero denominator |
| `InsufficientData` | selection with fewer than 2 points |
| `UnknownMethod(name)` | the configured method name is not known |
| `TargetNotSet` | selection before any target is set (the `abs(x - None)` `TypeError`) |

The evaluators take their inputs as immutable sequences. Their result is therefore a function
of the inputs alone, and they cannot reorder or mutate the caller's lists.

### Notes on the bands

- **CAUTION band.** The code classifies `4.0 <= y <= 5.9` as CAUTION (home.py:102), so 5.9
  itself is CAUTION. The DANGER bound is inclusive in the same way: `<= 3.9` (home.py:109).
- **Interpretation warning.** The "Crossing into Caution zone." warning fires when
  `current_y > 4.0` and `pred_y < 4.0`, unless "Critical Drop." overrides it (home.py:419-422).
  The code compares `current_y` with 4.0 directly, so a current CAUTION reading such as 4.5
  that is predicted to fall below 4.0 does get the warning.
- **Band gaps.** Values strictly inside (3.9, 4.0) or (5.9, 6.0) are CRITICAL in the code.
  `Risk.GapBreaksMonotonicity` exhibits this, and `Risk.TierMonotoneOutsideGaps` proves that
  the grading is monotone everywhere else. The gaps are kept as written.

## Model

| member | source | states |
|---|---|---|
| Lagrange.Interpolate | lagrange.py:17-39 | The result is an error iff there are fewer than 2 points or the lengths differ, or else iff two x-values are equal (`DuplicateAbscissa`). Otherwise it succeeds, and its value is the Lagrange sum `sum_j y_j prod_{i != j} (t - x_i)/(x_j - x_i)`, multiplied in the loop's order. |
| Lagrange.BasisProduct | lagrange.py:25-35 | The inner loop succeeds iff no other x equals `x_j`, and then returns the basis product `L_j(t)`. On failure the error is `DuplicateAbscissa`. |
| Lagrange.BasisAtOwnNode | lagrange.py:24-35 | `L_j(x_j) = 1`. |
| Lagrange.BasisAtOtherNode | lagrange.py:24-35 | `L_j(x_k) = 0` for every other node k that lies within the product. |
| Lagrange.LagrangeSumAtNode | lagrange.py:21-38 | At `t = x_k`, the partial sum over the first m terms is `y_k` when k < m, and 0 otherwise. |
| Lagrange.LagrangeInterpolates | lagrange.py:21-38 | With distinct x-values, the interpolant at `x_k` is exactly `y_k`. |
| Newton.HornerStep | dividedDifference.py:40-44 | The Newton form with base index lo equals `c_lo + (t - x_lo)` times the Newton form with base index lo+1. This is the identity each Horner iteration uses. |
| Newton.HornerGrow | dividedDifference.py:40-44 | If Horner's identity holds for the first hi-1 coefficients, it holds for the first hi: adding the top term `c_{hi-1} (t - x_lo)...(t - x_{hi-2})` to both sides keeps them equal. |
| Newton.DividedDifferenceOfConstant | dividedDifference.py:26-35 | For constant data c, every divided difference of order 0 is c and every higher order is 0. |
| Newton.NewtonOfConstant | dividedDifference.py:23-44 | For constant data c, the Newton form is c at every t. |
| NewtonEvaluator.TableStep | dividedDifference.py:27-35 | One update `coef[j] := (coef[j] - coef[j-1]) / (x_j - x_{j-i})` turns slot j from order i-1 into order i. Slot j-1 still holds order i-1, because j descends. No other slot changes. |
| NewtonEvaluator.OrderDone | dividedDifference.py:26-35 | Once the descent for order i reaches j = i, every slot holds order i (slots below i are already final), and every pair of x-values at distance <= i is checked distinct. |
| NewtonEvaluator.TableComplete | dividedDifference.py:23-35 | After the last order, the buffer is exactly the coefficient list `f[x_0..x_k]`, and all x-values are distinct. |
| NewtonEvaluator.BuildTable | dividedDifference.py:23-35 | The in-place table loop succeeds iff the x-values are distinct. On success, the buffer holds `coef[k] = f[x_0..x_k]` of the original y-values. |
| NewtonEvaluator.TableOrder | dividedDifference.py:27-35 | One order i of the table. It stops only when two x-values coincide. When it completes, every pair of x-values at distance <= i differs, and slot k holds `f[x_{k-i}..x_k]` (or `f[x_0..x_k]` for k <= i). |
| NewtonEvaluator.Evaluate | dividedDifference.py:40-44 | Horner's loop, from the top coefficient down, returns the Newton form `sum_k coef[k] prod_{m<k}(t - x_m)` of the buffer. |
| NewtonEvaluator.Interpolate | dividedDifference.py:17-45 | The same error cases as the Lagrange evaluator. On success, the value is the Newton form `sum_k coef[k] prod_{m<k}(t - x_m)` of the divided differences, and it equals the Lagrange evaluator's value. |
| Equivalence.ExplicitRecurrence | dividedDifference.py:28-35 | The symmetric sum satisfies the divided-difference recurrence `(f[lo+1..hi] - f[lo..hi-1]) = (x_hi - x_lo) f[lo..hi]`. |
| Equivalence.DividedDifferenceIsExplicit | dividedDifference.py:26-35 | Every recursive divided difference equals the symmetric sum `sum_j y_j / prod_{m != j}(x_j - x_m)` over its window. |
| Equivalence.NewtonIsWindowSum | dividedDifference.py:37-44 | The Newton form over the first k coefficients equals the Lagrange sum through the first k nodes. |
| Equivalence.ExplicitNewtonIsWindowSum | dividedDifference.py:37-44 | The same equality for any coefficient list whose slot i is the symmetric sum for `f[x_0..x_i]`. |
| Equivalence.ExplicitNewtonStep | dividedDifference.py:37-44 | Adding coefficient k to a Newton form that equals the Lagrange sum through k nodes gives the Lagrange sum through k+1 nodes. |
| Equivalence.BasisIsRatio | lagrange.py:24-35 | The loop's running basis product equals `prod_{m != j}(t - x_m) / prod_{m != j}(x_j - x_m)`. |
| Equivalence.LagrangeSumIsWindowSum | lagrange.py:21-38 | The Lagrange accumulator equals the window sum used in the Newton comparison. |
| Equivalence.NewtonEqualsLagrange | dividedDifference.py:37-45 | With distinct x-values, the Newton form of the divided differences equals the Lagrange sum for every t. |
| Equivalence.NewtonInterpolates | dividedDifference.py:37-45 | With distinct x-values, the Newton form at `x_k` is exactly `y_k`. |
| Equivalence.LagrangeOfConstant | lagrange.py:21-38 | For constant data c, the Lagrange sum is c at every t. |
| Risk.AssessKoiRisk | home.py:93-121 | SAFE iff `y >= 6.0`. CAUTION iff `4.0 <= y <= 5.9`. DANGER iff `3.0 <= y <= 3.9`. CRITICAL iff y is below 3.0 or strictly inside one of the two gaps. The message, action and colour are the band's own texts (`Assessment.Message`, `Action`, `Color`). |
| Risk.ColorIdentifiesTier | home.py:93-121 | Two assessments have the same colour iff they have the same status: the four colours `#00FF00`, `#FFFF00`, `#FFA500` and `#FF0000` differ. |
| Risk.TierMonotoneOutsideGaps | home.py:95-121 | Away from the two gaps, a larger value never gets a worse band. |
| Risk.GapBreaksMonotonicity | home.py:102-121 | 5.9 is CAUTION but 5.95 is CRITICAL, and 3.9 is DANGER but 3.95 is CRITICAL. |
| Risk.BoundaryValues | home.py:95-121 | The band of each boundary value 6.0, 5.9, 4.0, 3.9, 3.0, 2.9 and -5.0. |
| Risk.GenerateInterpretation | home.py:414-429 | Direction is Stable iff `abs(delta) < 0.1`, Rising iff `delta >= 0.1`, else Dropping. The change is `abs(delta)` and the horizon is `pred_x - current_x`. The warning is CriticalDrop iff `pred_y < 3.0`, CrossingIntoCaution iff `current_y > 4.0` and `3.0 <= pred_y < 4.0`, and none otherwise. Both statuses come from the risk bands. |
| Risk.WarningMatchesFutureTier | home.py:418-424 | A warning comes only with a DANGER or CRITICAL prediction, and "Critical Drop." only with a CRITICAL one. |
| Selection.Distance | home.py:85 | The sort key is non-negative and is `x - target` or `target - x`. |
| Selection.Insert | home.py:85 | One insertion step adds exactly the new index to the order, keeping every index in range. |
| Selection.SortedOrder | home.py:85 | The sorted order is a permutation of the indices `0 .. n-1`. |
| Selection.SelectedIndices | home.py:85-88 | `min(N, count)` indices into the collection. |
| Selection.SelectSubset | home.py:85-88 | The subset has `min(N, count)` points, each a collected point. |
| Selection.InsertKeepsSorted | home.py:85 | Inserting a later index into a stably sorted order keeps it stably sorted. |
| Selection.SortedOrderIsStable | home.py:85 | The sorted order is by distance, and equally distant points keep collection order. |
| Selection.SubsetIsStablySorted | home.py:85-88 | The first N of the sorted order are stably sorted. |
| Selection.SelectionIsClosest | home.py:85-88 | No unselected point is strictly closer than a selected one. An equally close unselected point comes later in the collection. |
| Selection.ExactMatchSelectedFirst | home.py:85-88 | The first collected point lying exactly at the target is the first point selected. |
| Narrators.NarrateLagrange | home.py:140-168 | The trace is the Lagrange derivation of the inputs: n basis values, value j being `L_j(t)`; n terms, term j being `y_j L_j(t)`; and a final value equal to the Lagrange evaluator's. |
| Narrators.NarrateTerms | home.py:140-161 | The outer loop records one basis value and one term per point: `L_j(t)` and `y_j L_j(t)` for each j in order. Its running sum ends at the Lagrange sum over all n points. |
| Narrators.NarrateBasis | home.py:143-153 | The narrator's inner product is the basis value `L_j(t)`. |
| Narrators.NarrateOrder | home.py:200-207 | One order j of the narrated table updates the buffer as the evaluator's table does, and leaves slots below j unchanged. It records exactly n-j entries, top slot first: entry m is the window `(n-1-m-j, n-1-m)`, with both operands and the quotient being the correct divided differences. |
| Narrators.NarrateNextOrder | home.py:200-208 | One pass of the order loop: after order j is narrated and `coef[j]` is appended, the buffer holds orders 1..j, the coefficient list is `f[x_0..x_0], ..., f[x_0..x_j]`, and the recorded windows are exactly those of orders 1..j, in narration order. |
| Narrators.NarrateTable | home.py:189-208 | The table records every window of orders 1..n-1 in narration order, each entry correct. The coefficient list is exactly `f[x_0..x_k]` for k < n. |
| Narrators.TableWindowsComplete | home.py:200-207 | Orders 1..j-1 of an n-point table record `(j-1)(2n-j)/2` windows. Each is `lo < hi < n` with width below j, and every such window is among them. |
| Narrators.TableWindowsAll | home.py:200-207 | The whole n-point table records `n(n-1)/2` windows, which are exactly the windows `lo < hi < n`. |
| Narrators.NarrateHorner | home.py:215-223 | Each recorded Horner step is the Newton form from that base index, and the final value is the full Newton form. |
| Narrators.NarrateDividedDifference | home.py:189-226 | The trace is the Newton derivation of the inputs. It has `n(n-1)/2` table entries, covering every window `lo < hi < n` order by order, each correct. The coefficient list is exactly the evaluator's final buffer `f[x_0..x_k]`. The Horner trace has n-1 steps, step m being the Newton form from base index n-2-m. The final value equals both the divided-difference evaluator's and the Lagrange evaluator's. |
| Session.Xs | home.py:240 | The x column of the subset, in order. |
| Session.Ys | home.py:241 | The y column of the subset, in order. |
| Session.MaxX | home.py:41-43 | 0 for no points. Otherwise an upper bound of every x that is attained by some point. |
| Session.ClampSubsetSize | home.py:69-71 | The stored size is at least 2. It is 2 when the request or the point count is below 2, the request when it lies in `[2, count]`, and the count when the request exceeds it. |
| Session.Dispatch | home.py:250-258 | An unknown method name raises `UnknownMethod`. A known one raises exactly the evaluator's errors. On success, the value is the interpolant at the target, and the solution is the derivation that the named method's narrator gives for the same inputs. |
| Session.SmartTrendExtrapolator.constructor | home.py:13-28 | The default state: no points, titles "Time"/"Value", method "Lagrange", subset size 5, no target, no subset, no predictions. |
| Session.SmartTrendExtrapolator.CollectDataPoints | home.py:30-39 | The collection is replaced by the given pairs in order. Nothing else changes. |
| Session.SmartTrendExtrapolator.SetPredictionHorizon | home.py:45-51 | Returns and stores `max x + horizon`, which is at least every `x + horizon`. Nothing else changes. |
| Session.SmartTrendExtrapolator.SetConfiguration | home.py:53-72 | All five configuration fields are overwritten; the subset size is the clamped request. Nothing else changes. |
| Session.SmartTrendExtrapolator.SelectExtrapolationSubset | home.py:74-91 | Fails with `InsufficientData` iff fewer than 2 points. Fails with `TargetNotSet` iff there are at least 2 points and no target. Otherwise the subset becomes the first N of the stable sort by distance, with at least 2 points. Nothing else changes. |
| Session.SmartTrendExtrapolator.ExtrapolateAndStore | home.py:231-279 | An empty subset or an unset target returns with nothing changed. An unknown method or an evaluator error is recorded as the last solution and raised, leaving the predictions unchanged. Each error case is stated as an iff. On success, exactly one record is appended: target, interpolant, method name, subset size, and the risk of the value. Its solution is the named method's derivation for the subset at the target. A target lying on a subset point predicts that point's y. The session invariant is kept: every stored record is consistent. |

## Left out

- The graphical front end (gui.py) is not part of this model.
- Console I/O is left out: `print`, `display_predicted_outputs`, `get_data_input`,
  `get_config_input` and `run_cli` only read input and print.
- Text formatting is left out. The narrators, the solution strings and the interpretation
  sentence are rendered with f-strings at fixed decimals. The model keeps their numeric
  content and the choices (direction, warning, statuses), never the characters.
- IEEE floating point is left out. All values are exact reals, so rounding, NaN and infinities
  are not modelled, and the equalities above hold exactly.
- Python's exception types and messages are one `Error` value per cause. `last_solution`'s
  error text is `ErrorText(error)`, not the formatted message.
- Narrators.NarrateLagrange and Narrators.NarrateDividedDifference require distinct x-values,
  so the `ZeroDivisionError` they would raise on duplicates is not modelled.
  Narrators.NarrateDividedDifference also requires at least one point, so the `IndexError` of
  `coefficients = [coef[0]]` (home.py:198) on empty input is not modelled.
  `extrapolate_and_store` calls them only after the evaluator has succeeded, and success implies
  these preconditions (at least 2 distinct x-values).
- Session.SmartTrendExtrapolator.ExtrapolateAndStore states the stored value as the Lagrange
  interpolant for both methods. The divided-difference path stores the Newton form, which
  `Equivalence.NewtonEqualsLagrange` proves equal.
- The configuration's method is kept as the source's string, and dispatch compares it with
  "Lagrange" and "Divided Difference". Python's dictionaries become the datatypes `Config`,
  `Prediction` and `Solution`.
