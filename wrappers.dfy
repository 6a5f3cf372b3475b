/** Optional values and success-or-error outcomes, standing in for Python's
    `None` and for the exceptions the scraper raises. */
module Wrappers {

  datatype Option<+T> = None | Some(value: T)

  datatype Result<+R, +E> = Success(value: R) | Failure(error: E)
}
