/** Failure-carrying values: a Java reference that may be null, and the
    exceptions the decision tree code throws, become values here. */
module Results {

  /** A reference that may be null. */
  datatype Option<+T> = None | Some(value: T)

  /** The value of a computation that either returns or throws. */
  datatype Result<+T, +E> = Success(value: T) | Failure(error: E)

  /** The outcome of a void method that either returns normally or throws. */
  datatype Outcome<+E> = Pass | Fail(error: E)
}
