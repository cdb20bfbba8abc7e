/** Failure-carrying result types used in place of Go's zero values and panics. */
module Wrappers {

  /** A value that may be absent; stands in for Go's `(ok bool, v T)` pairs. */
  datatype Option<T> = None | Some(value: T)

  /** Either a value or the error that aborted the operation. */
  datatype Result<T, E> = Ok(value: T) | Err(error: E)
}
