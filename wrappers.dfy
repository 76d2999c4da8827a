/** Failure-compatible wrappers shared by the modules of this model. */
module Wrappers {

  datatype Option<+T> = None | Some(value: T)

  /** The outcome of an operation that may be refused with a message. */
  datatype Result<+R> = Ok(value: R) | Err(message: string)
}
