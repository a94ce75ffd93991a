/** Failure-carrying values used for the operations that can be rejected. */
module Wrappers {

  /** A value that may be absent. */
  datatype Option<+T> = None | Some(value: T)

  /** Either the value an operation produced or the reason it was rejected. */
  datatype Result<+T, +E> = Ok(value: T) | Err(error: E)
}
