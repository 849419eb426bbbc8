/** Failure-carrying values used across the model: an optional value and a
    result that is either a value or an error. */
module Wrappers {

  /** A value that may be missing; stands for a JavaScript `null`/`undefined`. */
  datatype Option<+T> = None | Some(value: T)

  /** Either a successful value or an error. */
  datatype Result<+T, +E> = Ok(value: T) | Err(error: E)
}
