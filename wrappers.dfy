/** Failure-carrying results for the operations that throw in the original code. */
module Wrappers {

  datatype Option<+T> = None | Some(value: T)

  /** The value of a call that either returns normally or throws `error`. */
  datatype Result<+T, +E> = Ok(value: T) | Err(error: E)
}
