/** Optional values and results with an error, as the store and the page helpers return them. */
module Wrappers {

  /** A value that may be absent (`undefined` in the source). */
  datatype Option<+T> = None | Some(value: T)

  /** A value or the error an operation throws instead of returning it. */
  datatype Result<+T, +E> = Success(value: T) | Failure(error: E)
}
