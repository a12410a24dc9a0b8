/** Option and Result types used throughout the engine.
    `Result` stands for Rust's `Result<T, E>`; `Option` for `Option<T>`. */
module Wrappers {

  datatype Option<+T> = None | Some(value: T) {

    /** The payload, or `default` when absent (Rust's `unwrap_or`). */
    function GetOr(default: T): T {
      match this
      case Some(v) => v
      case None => default
    }
  }

  datatype Result<+T, +E> = Ok(value: T) | Err(error: E)
}
