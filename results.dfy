/** Failure-compatible wrappers used across the model for the source's error returns. */
module Results {

  datatype Option<+T> = None | Some(value: T)

  /** A value or the reason it could not be produced (the source's `false` / exception paths). */
  datatype Result<+T, +E> = Success(value: T) | Failure(error: E) {
    predicate IsFailure() { Failure? }

    function PropagateFailure<U>(): Result<U, E>
      requires Failure?
    {
      Failure(error)
    }

    function Extract(): T
      requires Success?
    {
      value
    }
  }

  /** Success or failure of an operation that only signals `true` / `false`. */
  datatype Outcome<+E> = Pass | Fail(error: E)
}
