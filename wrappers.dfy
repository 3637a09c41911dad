/** Option and Result, as the Rust source uses them. */
module Wrappers {

  datatype Option<+T> = None | Some(value: T) {

    /** Rust's `map_or(default, |v| v)`: the value, or `default` when there is none. */
    function GetOr(default: T): T {
      match this
      case Some(v) => v
      case None => default
    }
  }

  datatype Result<+R, +E> = Ok(value: R) | Err(error: E)
}
