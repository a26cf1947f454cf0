/** Failure-compatible wrappers used throughout the model: an optional value
    (the source's `T | null` / `T | undefined`), a result that is either a
    value or a typed error (the source's thrown `Error`s), and a pass/fail
    outcome for checks that return nothing on success. */
module Wrappers {

  datatype Option<+T> = None | Some(value: T)

  datatype Result<+T, +E> = Ok(value: T) | Err(error: E)

  datatype Outcome<+E> = Pass | Fail(error: E)
}
