/** Failure-carrying results used by the storage layer. */
module Wrappers {

  datatype Option<+T> = None | Some(value: T)

  /** The value of a promise that resolves with a value or rejects with an error message. */
  datatype Result<+T> = Ok(value: T) | Err(message: string)

  /** The value of a promise that resolves with nothing or rejects with an error message. */
  datatype Outcome = Done | Failed(message: string)
}
