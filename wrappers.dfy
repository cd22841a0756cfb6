/** Failure-carrying results shared by the vector and grid modules. */
module Wrappers {

  datatype Option<+T> = None | Some(value: T)

  /** A value, or the message of the exception the C++ code throws instead. */
  datatype Result<+T> = Ok(value: T) | Err(message: string)

  /** Success or failure of an operation that returns nothing. */
  datatype Outcome = Pass | Fail(message: string)
}
