/** Optional values and results with an error, as the model's stand-ins for
    Python's `None`-free lookups and raised exceptions. */
module Wrappers {

  datatype Option<+T> = None | Some(value: T)

  datatype Result<+R, +E> = Success(value: R) | Failure(error: E)
}
