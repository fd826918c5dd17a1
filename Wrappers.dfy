/** Optional values and results, standing in for PHP's null returns and exceptions. */
module Wrappers {

  /** A value that may be missing. */
  datatype Option<+T> = None | Some(value: T) {

    /** The contained value, or `default` when there is none. */
    function GetOr(default: T): T {
      match this
      case Some(v) => v
      case None => default
    }
  }

  /** Either a value or the error that replaced it. */
  datatype Result<+R, +E> = Ok(value: R) | Err(error: E)
}
