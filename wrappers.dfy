/** Optional values and results with an error part, used for the lookups and
    the validations of the file service. */
module Wrappers {

  datatype Option<+T> = None | Some(value: T)

  datatype Result<+T, +E> = Success(value: T) | Failure(error: E)
}
