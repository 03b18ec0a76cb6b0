/** Optional values and results with an error, used wherever the scrapers
    either leave a value out or raise an exception. */
module Wrappers {

  datatype Option<+T> = None | Some(value: T)

  datatype Result<+T, +E> = Success(value: T) | Failure(error: E)
}
