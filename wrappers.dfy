/** Optional values and results with an error, for the outcomes that the
    source signals by skipping a round or by showing a warning. */
module Wrappers {
  datatype Option<+T> = None | Some(value: T)

  datatype Result<+T, +E> = Success(value: T) | Failure(error: E)
}
