/** Failure-compatible result and option types used for the exceptions of the Java code. */
module Wrappers {

  datatype Option<+T> = None | Some(value: T)

  /** `Success` carries a value, `Failure` stands for a thrown exception. */
  datatype Result<+R, +E> = Success(value: R) | Failure(error: E) {

    predicate IsFailure() {
      Failure?
    }

    function PropagateFailure<U>(): Result<U, E>
      requires Failure?
    {
      Failure(error)
    }

    function Extract(): R
      requires Success?
    {
      value
    }
  }
}
