/** The success-or-error value that Rust's `Result` carries. */
module Wrappers {

  datatype Result<+T, +E> = Ok(value: T) | Err(error: E) {

    /** `Result::unwrap_or`: the success value, or `default` on an error. */
    function GetOr(default: T): T {
      match this
      case Ok(v) => v
      case Err(_) => default
    }
  }
}
