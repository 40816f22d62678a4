/** Optional values and results with an error, as the editing operations return them. */
module Wrappers {

  datatype Option<+T> = None | Some(value: T)

  datatype Result<+T, +E> = Ok(value: T) | Err(error: E)

  /** The outcome of an operation that changes state and may fail without a value. */
  datatype Outcome<+E> = Pass | Fail(error: E)
}
