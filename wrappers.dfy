/** Failure-carrying values shared by the service models. */
module Wrappers {

  /** A value that may be absent: JavaScript `undefined`/`null` is `None`. */
  datatype Option<T> = None | Some(value: T)

  /** The outcome of an operation that either returns a value or throws `new Error(message)`. */
  datatype Result<T> = Ok(value: T) | Err(message: string)
}
