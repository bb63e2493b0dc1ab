/** Option and Result, used for the JavaScript `undefined`/`null` cases and
    for operations that throw. */
module Wrappers {

  datatype Option<+T> = None | Some(value: T)

  datatype Result<+R, +E> = Success(value: R) | Failure(error: E)
}
