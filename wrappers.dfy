/** Failure-carrying results: the model's stand-in for the exceptions the
    Python program raises (ValueError from `list.index`, IndexError). */
module Wrappers {

  datatype Option<+T> = None | Some(value: T)

  datatype Result<+R, +E> = Success(value: R) | Failure(error: E)
}
