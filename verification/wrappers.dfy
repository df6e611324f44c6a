/** The two wrapper types used across the model: an optional value and a
    success-or-failure outcome carrying an error message. */
module Wrappers {

  /** A value that may be absent (the source's `null`). */
  datatype Option<+T> = None | Some(value: T)

  /** Either a value or an error description (the source's exceptions). */
  datatype Result<+R, +E> = Success(value: R) | Failure(error: E)
}
