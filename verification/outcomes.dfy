/** Failure-compatible result type for the trial-matrix operations.
    Every assertion the repository's code makes on a caller's data becomes
    one of the `Error` values below instead of an exception. */
module Outcomes {

  /** The ways an operation of the trial-matrix algebra can fail. */
  datatype Error =
    | DuplicateIdentifier   // a catalog lists the same identifier twice
    | ShapeMismatch         // a matrix is not |models| x |segments|
    | MissingIdentifier     // a requested identifier is absent from a catalog
    | MergeConflict         // two merge inputs both hold a valid score for one trial
    | MissingScores         // a required trial has no valid score
    | EmptyList             // merge was given no inputs at all
    | UndefinedName         // the code refers to a name it never bound

  datatype Result<+T> = Success(value: T) | Failure(error: Error) {

    predicate IsFailure() {
      Failure?
    }

    function PropagateFailure<U>(): Result<U>
      requires Failure?
    {
      Failure(error)
    }

    function Extract(): T
      requires Success?
    {
      value
    }
  }

  datatype Option<+T> = None | Some(value: T)
}
