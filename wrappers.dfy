/** Failure-carrying results: Python's raised exceptions become `Err` / `Fail` values. */
module Wrappers {

  datatype Option<+T> = None | Some(value: T)

  datatype Result<+T, +E> = Ok(value: T) | Err(error: E)

  /** The outcome of a check that returns nothing on success and raises otherwise. */
  datatype Outcome<+E> = Pass | Fail(error: E)
}
