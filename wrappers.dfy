/** Optional values and results, standing in for JavaScript's `null`/`undefined`
    and for a value-or-thrown-error outcome. */
module Wrappers {

  datatype Option<+T> = None | Some(value: T)

  datatype Result<+R, +E> = Success(value: R) | Failure(error: E)
}
