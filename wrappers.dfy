/** Nullable values and results with an error path, as the C# code uses `T?` and exceptions. */
module Wrappers {

  /** A value that may be absent: `null` in the C# code. */
  datatype Option<+T> = None | Some(value: T) {
    function GetOr(default: T): T {
      match this
      case Some(v) => v
      case None => default
    }
  }

  /** A value or the error that the C# code raises as an exception. */
  datatype Result<+T, +E> = Ok(value: T) | Err(error: E)
}
