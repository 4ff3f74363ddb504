/** Optional values and results with an error, as used throughout the model. */
module Wrappers {

  /** A value that may be missing; for a table cell, None is SQL NULL. */
  datatype Option<+T> = None | Some(value: T)

  /** The outcome of an operation that can fail. */
  datatype Result<+R, +E> = Success(value: R) | Failure(error: E)
}
