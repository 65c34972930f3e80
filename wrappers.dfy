/** Optional values and results with an error, used throughout the model. */
module Wrappers {

  /** A value that may be missing: JavaScript's `undefined`, or a value that is not a string. */
  datatype Option<+T> = None | Some(value: T)

  /** The outcome of an operation that either returns a value or throws an error. */
  datatype Result<+T, +E> = Ok(value: T) | Err(error: E)
}
