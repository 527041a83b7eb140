/** Byte strings and the failure-compatible result and option types shared by every
    module of the model.
    Python raises an exception where these return `Failure`; the error payload names
    the exception the source would have raised. */
module Results {

  /** Byte strings, as Python's `bytes`. */
  type Bytes = seq<bv8>

  datatype Option<+T> = None | Some(value: T)

  datatype Result<+T, +E> = Success(value: T) | Failure(error: E) {

    predicate IsFailure() {
      Failure?
    }

    function PropagateFailure<U>(): Result<U, E>
      requires Failure?
    {
      Failure(error)
    }

    function Extract(): T
      requires Success?
    {
      value
    }
  }
}
