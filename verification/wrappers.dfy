/** Option and Result, the two Rust standard types the crate is written in. */
module Wrappers {

  /** Rust's `Option<T>`. */
  datatype Option<+T> = None | Some(value: T) {

    /** `unwrap_or`: the carried value, or `default` when there is none. */
    function GetOr(default: T): T {
      match this
      case Some(v) => v
      case None => default
    }
  }

  /** Rust's `Result<T, E>`; validators use `Result<(), Message>`. */
  datatype Result<+T, +E> = Ok(value: T) | Err(error: E)
}
