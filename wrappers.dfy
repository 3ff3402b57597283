/** The two result shapes the model uses for C#'s nullable values and exceptions. */
module Wrappers {

  /** A value that may be absent (C# `null`). */
  datatype Option<+T> = None | Some(value: T)

  /** A computation that either produces a value or fails with an error
      (an exception in the C# source). */
  datatype Result<+T, +E> = Ok(value: T) | Err(error: E)
}
