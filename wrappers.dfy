/** Optional values and results with an error, used for the lookups that may
    find nothing and for the steps at which the controller throws. */
module Wrappers {

  datatype Option<+T> = None | Some(value: T)

  datatype Result<+R, +E> = Success(value: R) | Failure(error: E)
}
