/** Option and Result, used for missing request keys and for the outcome of
    validation and of each request handler. */
module Wrappers {

  datatype Option<+T> = None | Some(value: T)

  datatype Result<+R, +E> = Success(value: R) | Failure(error: E)
}
