/** Option for a Java reference that may be null, Result for a call that may throw. */
module Wrappers {

  datatype Option<+T> = None | Some(value: T)

  /** `Ok` is a normal return, `Failure` an exception thrown out of the call.
      Usable with `:-`, so that a thrown exception propagates as in Java. */
  datatype Result<+T, +E> = Ok(value: T) | Failure(error: E) {

    predicate IsFailure() {
      Failure?
    }

    function PropagateFailure<U>(): Result<U, E>
      requires Failure?
    {
      Failure(error)
    }

    function Extract(): T
      requires Ok?
    {
      value
    }
  }
}
