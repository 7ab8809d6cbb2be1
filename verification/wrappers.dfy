/** Failure-compatible result types, so that the Python exceptions of the
    calendar (KeyError on a lookup, ValueError from date.replace) become
    values that the model can reason about. */
module Wrappers {

  /** Some value, or nothing (the operation would have raised). */
  datatype Option<+T> = None | Some(value: T)

  /** A value, or the error the operation would have raised. */
  datatype Result<+R, +E> = Success(value: R) | Failure(error: E) {

    predicate IsFailure() {
      Failure?
    }

    function PropagateFailure<U>(): Result<U, E>
      requires Failure?
    {
      Failure(error)
    }

    function Extract(): R
      requires Success?
    {
      value
    }
  }
}
