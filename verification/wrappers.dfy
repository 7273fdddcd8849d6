/** Failure-carrying wrappers used across the quiz model: an optional value
    (a Java reference that may be null) and a result that is either a value
    or the exception that interrupted its computation. */
module Wrappers {

  datatype Option<+T> = None | Some(value: T)

  datatype Result<+R, +E> = Success(value: R) | Failure(error: E)
}
