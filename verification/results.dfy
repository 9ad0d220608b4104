/** Failure-compatible wrappers used for every operation of the model that the
    wallet code can throw from: an exception becomes an `Err`, never a partial value. */
module Results {

  /** A value that may be missing: a partial oracle that throws returns `None`. */
  datatype Option<+T> = None | Some(value: T)

  /** The outcome of an operation that either succeeds or reports a typed error. */
  datatype Result<+T, +E> = Ok(value: T) | Err(error: E) {

    predicate IsFailure() {
      Err?
    }

    function PropagateFailure<U>(): Result<U, E>
      requires Err?
    {
      Err(error)
    }

    function Extract(): T
      requires Ok?
    {
      value
    }
  }
}
