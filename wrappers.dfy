/** Optional values and results with an error, for the error returns of the model. */
module Wrappers {

  /** A value that may be absent (Python's `None`). */
  datatype Option<+T> = None | Some(value: T)

  /** Either a value or an error, for the resources' error responses. */
  datatype Result<+R, +E> = Success(value: R) | Failure(error: E)
}
