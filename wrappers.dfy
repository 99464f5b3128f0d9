/** Option and Result, for the source's null returns and caught exceptions. */
module Wrappers {

  /** A value or nothing (the source's `null`). */
  datatype Option<+T> = None | Some(value: T)

  /** A value or the message of the exception that was raised instead. */
  datatype Result<+T> = Ok(value: T) | Err(message: string)
}
