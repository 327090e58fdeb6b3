// Shared result types.
module Wrappers {
  datatype Option<+T> = None | Some(value: T)

  datatype Outcome<+E> = Pass | Fail(error: E)

  datatype Result<+T, +E> = Ok(value: T) | Err(error: E)
}
