/** Failure-compatible wrappers for the Python code's `None` returns and raised exceptions. */
module Wrappers {

  /** `None` or a present value, as Python's `Optional`. */
  datatype Option<+T> = None | Some(value: T)

  /** A value or the exception that aborted the computation. */
  datatype Result<+T, +E> = Success(value: T) | Failure(error: E) {
    predicate IsFailure() {
      Failure?
    }

    function PropagateFailure<U>(): Result<U, E>
      requires Failure?
    {
      Failure(error)
    }

    function Extract(): T
      requires Success?
    {
      value
    }
  }
}
