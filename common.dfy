/** Error taxonomy and result wrappers shared by the evaluators and the session. */
module Common {

  /** The failures the core can report. */
  datatype Error =
    | DegenerateInput           // fewer than 2 points, or x and y of different lengths
    | DuplicateAbscissa         // a zero denominator: two equal x-values
    | InsufficientData          // subset selection with fewer than 2 collected points
    | UnknownMethod(name: string) // a method name the dispatcher does not know
    | TargetNotSet              // subset selection before any target x was configured

  /** A value or the error that was raised instead. */
  datatype Result<+T> = Success(value: T) | Failure(error: Error)

  /** An operation that either completes or raises. */
  datatype Outcome = Pass | Fail(error: Error)

  /** Every x-value occurs once: no two indices carry the same abscissa. */
  predicate Distinct(xs: seq<real>) {
    forall a, b :: 0 <= a < |xs| && 0 <= b < |xs| && a != b ==> xs[a] != xs[b]
  }
}
