/** Optional values and outcomes that carry an error message. */
module Wrappers {

  datatype Option<T> = None | Some(value: T)

  /** The outcome of an operation that can fail with a message, as a caught JavaScript error does. */
  datatype Result<T> = Success(value: T) | Failure(error: string)
}
