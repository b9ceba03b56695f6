/** Failure-carrying result types shared by every module of the model. */
module Wrappers {

  /** An optional value: Python's None or C++'s null pointer. */
  datatype Option<+T> = None | Some(value: T)

  /** A value or an error. */
  datatype Result<+T, +E> = Ok(value: T) | Err(error: E) {
    predicate IsOk() { Ok? }
  }

  /** Success without a value, or an error. */
  datatype Outcome<+E> = Pass | Fail(error: E)
}
