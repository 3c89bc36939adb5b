/** Optional values and results with an error, for the migrator's `None`
    returns and its `ValueError`s. */
module Wrappers {
  datatype Option<+T> = None | Some(value: T)

  datatype Result<+T, +E> = Success(value: T) | Failure(error: E)
}
