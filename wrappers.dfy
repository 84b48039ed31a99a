/** Failure-carrying result types used for every error path of the model. */
module Wrappers {

  /** A value that may be absent: what a foreign decoder returns when it fails. */
  datatype Option<+T> = None | Some(value: T)

  /** The outcome of an operation that the program would abort (`expect`, a panic) on failure. */
  datatype Result<+T, +E> = Success(value: T) | Failure(error: E)
}
