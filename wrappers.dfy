/** Failure-compatible wrappers shared by every module of the model. */
module Wrappers {

  /** An optional value; None stands for JavaScript's `null`/`undefined`. */
  datatype Option<+T> = None | Some(value: T)

  /** The outcome of an operation that may throw: Err carries the message. */
  datatype Result<+T> = Ok(value: T) | Err(error: string)
}
