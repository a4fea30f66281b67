/** Failure-carrying results for the server's operations. */
module Wrappers {

  datatype Option<+T> = None | Some(value: T)

  /** `Err` stands for a raised `ValueError`; `message` is its text. */
  datatype Result<+T> = Ok(value: T) | Err(message: string)
}
