/** Failure-carrying values used across the model in place of C's NULL returns and 0/1 status codes. */
module Wrappers {

  /** A value that may be absent (a C pointer that may be NULL). */
  datatype Option<+T> = None | Some(value: T)

  /** Either a value or the reason there is none. */
  datatype Result<+T, +E> = Ok(value: T) | Err(error: E)

  /** Success or a reason for failure, with no value. */
  datatype Outcome<+E> = Pass | Fail(error: E)
}
