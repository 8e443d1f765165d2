/** Optional values, results and answers of the world outside, used by every component. */
module Outcomes {

  datatype Option<+T> = None | Some(value: T)

  datatype Result<+T, +E> = Ok(value: T) | Err(error: E)

  /** An answer of the world outside: whether a call fails, whether a context is done. */
  method Chance() returns (b: bool) {
    b := *;
  }
}
