/** Failure-carrying results shared by every handler model. */
module Wrappers {

  datatype Option<+T> = None | Some(value: T)

  /** `Failure` stands for an exception the handler throws. */
  datatype Result<+R, +E> = Success(value: R) | Failure(error: E)
}
