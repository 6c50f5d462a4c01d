/** Failure-compatible wrappers used across the model. */
module Wrappers {

  /** A value that may be absent: PHP's `null` next to a value of type `T`. */
  datatype Option<+T> = None | Some(value: T)

  /** The outcome of an operation that may raise; `E` describes what went wrong. */
  datatype Result<+T, +E> = Success(value: T) | Failure(error: E) {

    predicate IsFailure() {
      Failure?
    }

    function PropagateFailure<U>(): Result<U, E>
      requires Failure?
    {
      Failure(error)
    }

    function Extract(): T
      requires Success?
    {
      value
    }
  }
}
