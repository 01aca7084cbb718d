/** Optional and fallible values shared by the modules of the model. */
module Wrappers {

  /** A value that may be absent, as a lookup that finds nothing. */
  datatype Option<+T> = None | Some(value: T)

  /** The outcome of an operation that either yields a value or fails with an error. */
  datatype Result<+T, +E> = Success(value: T) | Failure(error: E)
}
