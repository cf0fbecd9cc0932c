/** Optional values and request outcomes used by the goal store. */
module Wrappers {

  /** A value that may be absent: a NULL column, a failed parse, a missing row. */
  datatype Option<+T> = None | Some(value: T)

  /** The outcome of a request: a value, or why it failed. */
  datatype Result<+T, +E> = Ok(value: T) | Err(error: E)
}
