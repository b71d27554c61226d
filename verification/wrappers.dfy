/** Optional values and fallible results, used wherever the Go code returns
    `nil` for "absent" or a value together with an `error`. */
module Wrappers {

  /** A value that may be absent: Go's `nil` interface value or nil error. */
  datatype Option<+T> = None | Some(value: T) {

    /** The held value, or `default` when there is none. */
    function GetOr(default: T): T {
      match this
      case Some(v) => v
      case None => default
    }
  }

  /** The pair `(value, err)` that Go functions return, as one value. */
  datatype Result<+T> = Ok(value: T) | Err(error: string) {

    /** The held value, or `default` on error. */
    function GetOr(default: T): T {
      match this
      case Ok(v) => v
      case Err(_) => default
    }
  }
}
