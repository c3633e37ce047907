/** Option and Result shared by the model. */
module Wrappers {

  /** A value that may be absent. */
  datatype Option<+T> = None | Some(value: T)

  /** Either a value or the error that aborted the script. */
  datatype Result<+T, +E> = Ok(value: T) | Err(error: E)
}
