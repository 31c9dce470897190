/** Failure-carrying results shared by the three components. */
module Wrappers {

  datatype Option<T> = None | Some(value: T)

  /** The outcome of an operation the script raises an exception for. */
  datatype Result<T, E> = Ok(value: T) | Err(error: E)
}
