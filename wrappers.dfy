/** Optional values and results with an error, used for the calls that may
    raise and for the form checks that may reject. */
module Wrappers {

  datatype Option<+T> = None | Some(value: T)

  datatype Result<+T, +E> = Success(value: T) | Failure(error: E)
}
