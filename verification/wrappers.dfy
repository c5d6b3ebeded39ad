/** Option and Result, shared by the other modules. */
module Wrappers {

  /** An optional value: PHP's nullable parameters and `false` returns. */
  datatype Option<+T> = None | Some(value: T) {

    /** The wrapped value, or `default` when there is none. */
    function GetOr(default: T): T {
      match this
      case Some(v) => v
      case None => default
    }
  }

  /** Either a value or the error that a PHP method would throw instead. */
  datatype Result<+T, +E> = Ok(value: T) | Err(error: E)
}
