/** Optional values and success-or-error results, used for the
    `DoesNotExist` lookups and the raised errors of the system. */
module Wrappers {

  datatype Option<+T> = None | Some(value: T)

  datatype Result<+T, +E> = Success(value: T) | Failure(error: E)
}
