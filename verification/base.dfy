/** Failure-carrying wrappers shared by every module of the model. */
module Base {

  /** A value that may be absent (JavaScript's `undefined`). */
  datatype Option<+T> = None | Some(value: T)

  /** The outcome of an operation that can fail with a message (a rejected
      callback, a thrown exception). */
  datatype Result<+T> = Ok(value: T) | Err(error: string)
}
