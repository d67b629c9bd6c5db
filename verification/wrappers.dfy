/** Optional values and results with an error, used wherever the catalogue
    returns `None` or raises an exception. */
module Wrappers {

  /** Python's `Optional[T]`: `None` or a present value. */
  datatype Option<+T> = None | Some(value: T) {

    /** The present value, or `default` when there is none. */
    function GetOr(default: T): T {
      match this
      case Some(v) => v
      case None => default
    }
  }

  /** A value, or the error an operation raised instead. */
  datatype Result<+T, +E> = Ok(value: T) | Err(error: E)
}
