/** Optional values and results with an error, as the repositories return them. */
module Wrappers {

  /** Swift's `Optional`: `None` is `nil`. */
  datatype Option<+T> = None | Some(value: T)

  /** A value, or the error a Swift `throws` function would raise. */
  datatype Result<+T, +E> = Success(value: T) | Failure(error: E)
}
