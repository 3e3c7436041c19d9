/** Optional values and results with an error: PHP's nullable returns and exceptions. */
module Wrappers {

  datatype Option<+T> = None | Some(value: T) {
    function GetOr(default: T): T {
      match this
      case Some(v) => v
      case None => default
    }
  }

  /** `Err` stands for an exception thrown by the modelled PHP method. */
  datatype Result<+T, +E> = Ok(value: T) | Err(error: E)
}
