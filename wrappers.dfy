/** Optional values and the outcome of an operation that may throw. */
module Wrappers {

  /** A value that may be absent: JavaScript's `undefined`. */
  datatype Option<T> = None | Some(value: T) {

    /** The value, or `default` when there is none. */
    function GetOr(default: T): T {
      match this
      case Some(v) => v
      case None => default
    }
  }

  /** Either the value an operation returns, or the message it throws. */
  datatype Result<T> = Ok(value: T) | Thrown(message: string)
}
