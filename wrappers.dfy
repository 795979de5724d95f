/** Failure-carrying values shared by every component of the model. */
module Wrappers {

  /** A value that may be missing: the model's rendering of a C# `null` return. */
  datatype Option<+T> = None | Some(value: T)

  /** The outcome of an operation that either returns a value or throws. */
  datatype Result<+T, +E> = Success(value: T) | Failure(error: E)
}
