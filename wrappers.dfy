/** Optional values and results with an error, for the operations of the
    model that return null, NaN, undefined or throw. */
module Wrappers {
  datatype Option<T> = None | Some(value: T)

  datatype Result<T, E> = Success(value: T) | Failure(error: E)
}
