/** Failure-carrying values used throughout the model in place of Go's
    `(value, error)` pairs and TypeScript's `null`/`undefined` results. */
module Wrappers {

  /** A value that may be absent: a nullable column, an optional argument,
      a lookup that found nothing. */
  datatype Option<+T> = None | Some(value: T) {
    function GetOr(default: T): T {
      match this
      case Some(v) => v
      case None => default
    }
  }

  /** The outcome of an operation that can fail with an error value. */
  datatype Result<+T, +E> = Ok(value: T) | Err(error: E)
}
