/** Small failure-carrying wrappers shared by the other modules. */
module Wrappers {

  /** A value that may be absent: the model of a nullable reference. */
  datatype Option<+T> = None | Some(value: T)

  /** Either a value or the error that an operation threw instead. */
  datatype Result<+R, +E> = Success(value: R) | Failure(error: E)
}
