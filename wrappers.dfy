/** Failure-carrying results shared by every module of the model. */
module Wrappers {

  /** A value that may be absent; JavaScript's `undefined` or `null` result. */
  datatype Option<T> = None | Some(value: T)

  /** The outcome of an operation that can throw: `Err` carries the message of the thrown Error. */
  datatype Result<T> = Ok(value: T) | Err(message: string)
}
