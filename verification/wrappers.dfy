/** Optional values and results with an error, the shapes the handlers use in
    place of C# nulls and exceptions. */
module Wrappers {

  /** A value that may be absent (a C# null reference or nullable value). */
  datatype Option<+T> = None | Some(value: T) {

    /** The carried value, or `default` when absent (C#'s `??`). */
    function GetOr(default: T): T {
      match this
      case Some(v) => v
      case None => default
    }
  }

  /** The outcome of an operation that may throw. */
  datatype Result<+T, +E> = Ok(value: T) | Err(error: E)
}
