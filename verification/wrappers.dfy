/** Failure-compatible wrappers used throughout the model: an optional value
    (a Go reference that may be nil) and a result carrying either a value or an error
    (a Go `(value, error)` return pair). */
module Wrappers {

  /** An optional value: `None` stands for a nil reference or an absent column. */
  datatype Option<+T> = None | Some(value: T) {
    predicate IsFailure() {
      None?
    }

    function PropagateFailure<U>(): Option<U>
      requires None?
    {
      None
    }

    function Extract(): T
      requires Some?
    {
      value
    }
  }

  /** Either the value a call produced or the error it returned. */
  datatype Result<+R, +E> = Success(value: R) | Failure(error: E) {
    predicate IsFailure() {
      Failure?
    }

    function PropagateFailure<U>(): Result<U, E>
      requires Failure?
    {
      Failure(error)
    }

    function Extract(): R
      requires Success?
    {
      value
    }
  }
}
