/** Failure-carrying values shared by the model's modules. */
module Results {

  datatype Option<+T> = None | Some(value: T)

  /** The value of a Go call that returns `(T, error)`. */
  datatype Result<+T, +E> = Success(value: T) | Failure(error: E)

  /** The value of a Go call that returns only an `error`. */
  datatype Outcome<+E> = Pass | Fail(error: E)
}
