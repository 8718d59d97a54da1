/** Failure-carrying values: Python's `None` returns and raised exceptions become tagged results. */
module Wrappers {

  /** A value that may be absent (Python `Optional`, SQL `NULL`). */
  datatype Option<+T> = None | Some(value: T) {
    function GetOr(default: T): T {
      match this
      case Some(v) => v
      case None => default
    }
  }

  /** The outcome of a call that either returns a value or raises an error. */
  datatype Result<+T, +E> = Ok(value: T) | Err(error: E)
}
