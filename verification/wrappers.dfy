/** Option and Result types shared by the modules of the LDD model. */
module Wrappers {

  datatype Option<+T> = None | Some(value: T)

  /** The outcome of an operation that can fail; a Rust panic or `Err` becomes `Failure`. */
  datatype Result<+T, +E> = Success(value: T) | Failure(error: E)
}
