/** Option and Result, the two failure-aware wrappers the model uses in place of
    C#'s nullable `int?` and of thrown exceptions. */
module Wrappers {

  /** `None` plays the part of a C# `null` in an `int?`. */
  datatype Option<+T> = None | Some(value: T)

  /** A computation that either produced a value or threw the exception `error`. */
  datatype Result<+T, +E> = Ok(value: T) | Err(error: E)
}
