/** Failure-carrying result types shared by the other modules. */
module Wrappers {

  datatype Option<+T> = None | Some(value: T)

  /** The value an operation returns, or the exception it lets reach its caller. */
  datatype Result<+T, +E> = Ok(value: T) | Err(error: E)
}
