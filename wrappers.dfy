/** Failure-carrying values used where the Go code returns `(value, error)` or a nil-able value. */
module Wrappers {

  /** A value that may be absent (a Go nil slice, reader or pointer). */
  datatype Option<+T> = None | Some(value: T)

  /** A Go `(value, error)` pair: either a value or the error's message. */
  datatype Result<+T> = Ok(value: T) | Err(msg: string)
}
