/** Option and Result, as the Rust source uses them. */
module Wrappers {

  datatype Option<+T> = None | Some(value: T) {
    /** `unwrap_or`: the value, or the given default when there is none. */
    function GetOr(default: T): T {
      match this
      case Some(v) => v
      case None => default
    }
  }

  /** A fallible result; the error payload is irrelevant to every caller here. */
  datatype Result<+T> = Ok(value: T) | Err
}
