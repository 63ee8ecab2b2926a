/** Option and Result, the failure-carrying values used throughout the model. */
module Wrappers {

  datatype Option<+T> = None | Some(value: T)

  /** Ok carries the value of a call that succeeded; Err stands for the
      exception the pandas call would raise. */
  datatype Result<+T, +E> = Ok(value: T) | Err(error: E)
}
