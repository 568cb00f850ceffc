/** Failure-carrying datatypes shared by the resolver and the command-line flow. */
module Wrappers {

  /** A value that may be absent. */
  datatype Option<+T> = None | Some(value: T)

  /** Either a result or the error that prevented it; stands in for a raised exception. */
  datatype Result<+R, +E> = Success(value: R) | Failure(error: E)
}
