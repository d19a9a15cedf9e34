/** Optional values and error-or-value results, shared by both stores. */
module Wrappers {

  /** A value that may be missing: a Go `nil` slice or a failed map lookup. */
  datatype Option<+T> = None | Some(value: T)

  /** The `(value, error)` pair a Go function returns, with exactly one side meaningful. */
  datatype Result<+T, +E> = Ok(value: T) | Err(error: E)
}
