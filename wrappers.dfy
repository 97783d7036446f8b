/** Optional values and error-or-value results, used for the nullable fields and the
    thrown errors of the game backend. */
module Wrappers {

  datatype Option<+T> = None | Some(value: T)

  datatype Result<+R, +E> = Success(value: R) | Failure(error: E)
}
