/** Failure-carrying return types: the model's stand-in for a JavaScript `throw`. */
module Results {

  datatype Option<+T> = None | Some(value: T)

  /** Either a value or the error a JavaScript function would have thrown. */
  datatype Result<+T, +E> = Success(value: T) | Failure(error: E) {

    predicate IsFailure() {
      Failure?
    }

    function PropagateFailure<U>(): Result<U, E>
      requires Failure?
    {
      Failure(error)
    }

    function Extract(): T
      requires Success?
    {
      value
    }
  }

  /** A check that either passes or carries the error it would have thrown. */
  datatype Outcome<+E> = Pass | Fail(error: E)
}
