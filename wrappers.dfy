/** Failure-compatible Option and Result types, standing in for JavaScript's
    `undefined`/`null` values and thrown exceptions. */
module Wrappers {

  datatype Option<+T> = None | Some(value: T) {

    /** Converts `None` into a failure carrying `error`. */
    function ToResult<E>(error: E): Result<T, E> {
      match this
      case Some(v) => Success(v)
      case None => Failure(error)
    }
  }

  datatype Result<+R, +E> = Success(value: R) | Failure(error: E) {

    predicate IsFailure() {
      Failure?
    }

    function PropagateFailure<U>(): Result<U, E>
      requires Failure?
    {
      Failure(error)
    }

    function Extract(): R
      requires Success?
    {
      value
    }
  }
}
