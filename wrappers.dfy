/** Option and Result, the failure-compatible wrappers the model uses for
    absent values and for the errors the admin-UI template generator throws. */
module Wrappers {

  datatype Option<+T> = None | Some(value: T)

  datatype Result<+R, +E> = Ok(value: R) | Err(error: E)
}
