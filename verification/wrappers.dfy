/** Failure-compatible wrappers used for the script's crash paths and its NaN cells. */
module Wrappers {

  /** A value that may be missing; `None` stands for a NaN cell of the results table. */
  datatype Option<+T> = None | Some(value: T)

  /** Either a value or the error that aborts the script. Usable with `:-`. */
  datatype Result<+T, +E> = Success(value: T) | Failure(error: E) {

    predicate IsFailure() {
      Failure?
    }

    function PropagateFailure<U>(): Result<U, E>
      requires Failure?
    {
      Failure(error)
    }

    function Extract(): T
      requires Success?
    {
      value
    }
  }
}
