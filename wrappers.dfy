/** Failure-carrying results shared by the other modules. */
module Wrappers {

  /** A value that may be absent; Python's `None` is `None` here. */
  datatype Option<+T> = None | Some(value: T)

  /** The outcome of an operation that may raise: `Err` carries the message
      of the `ValueError` the source raises. */
  datatype Result<+T> = Ok(value: T) | Err(message: string)
}
