/** Option and Result, the two failure-carrying wrappers the rest of the model uses. */
module Wrappers {

  /** A value that may be absent (Python's `None`). */
  datatype Option<+T> = None | Some(value: T)

  /** Either a value or the error message that the bot would send instead. */
  datatype Result<+T, +E> = Ok(value: T) | Err(error: E)
}
