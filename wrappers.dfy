/** Optional values and results with an error, as used across the decoder. */
module Wrappers {

  /** Python's `None` or a value. */
  datatype Option<T> = None | Some(value: T)

  /** A value, or the exception that ended the computation. */
  datatype Result<T, E> = Success(value: T) | Failure(error: E)
}
