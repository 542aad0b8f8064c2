/** Failure-carrying wrappers used by the roster and attendance operations. */
module Results {

  /** A value that may be absent, as a field of a stored record may be. */
  datatype Option<+T> = None | Some(value: T) {

    /** The wrapped value, or `default` when absent (JavaScript's `x || default`
        for values that are always truthy when present). */
    function GetOr(default: T): T {
      match this
      case Some(v) => v
      case None => default
    }
  }

  /** The outcome of an operation that either produces a value or is rejected. */
  datatype Result<+T, +E> = Ok(value: T) | Err(error: E)
}
