/** Failure-compatible result types shared by the model. */
module Wrappers {

  /** A value that may be absent (a null or expired pointer). */
  datatype Option<+T> = None | Some(value: T)

  /** The value of a query that may throw instead of returning. */
  datatype Result<+T, +E> = Success(value: T) | Failure(error: E)

  /** The outcome of a void operation that may throw. */
  datatype Outcome<+E> = Pass | Fail(error: E)
}
