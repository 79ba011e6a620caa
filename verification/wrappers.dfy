/** Failure-carrying datatypes shared by the model. */
module Wrappers {

  /** A value that may be absent, as `undefined` or `-1` are used in the program. */
  datatype Option<+T> = None | Some(value: T)

  /** The outcome of an operation that either returns a value or throws. */
  datatype Result<+R, +E> = Success(value: R) | Failure(error: E) {

    predicate IsFailure() {
      Failure?
    }

    function PropagateFailure<U>(): Result<U, E>
      requires Failure?
    {
      Failure(error)
    }

    function Extract(): R
      requires Success?
    {
      value
    }
  }
}
