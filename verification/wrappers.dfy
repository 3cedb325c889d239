/** Optional values and results, standing in for C# `null` and for exceptions. */
module Wrappers {

  /** `None` models a C# `null` reference. */
  datatype Option<+T> = None | Some(value: T)

  /** The outcome of an operation that may throw: `Failure` carries the exception. */
  datatype Result<+R, +E> = Success(value: R) | Failure(error: E)
}
