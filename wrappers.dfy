/** Optional values and results with an error message, as used throughout the model. */
module Wrappers {

  /** A value that may be absent (JavaScript `undefined` / `null`). */
  datatype Option<+T> = None | Some(value: T)

  /** The outcome of an operation that may throw; `Err` carries the thrown message. */
  datatype Result<+T> = Ok(value: T) | Err(message: string)
}
