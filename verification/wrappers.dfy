/** Option and Result: the model's stand-ins for C# null and for thrown exceptions. */
module Wrappers {

  /** A value that may be absent; `None` plays the role of a C# `null` reference. */
  datatype Option<+T> = None | Some(value: T) {

    /** The value, or `default` when absent (C#'s `??`). */
    function GetOr(default: T): T {
      match this
      case Some(v) => v
      case None => default
    }
  }

  /** Either a normal return or the exception the operation throws. */
  datatype Result<+R, +E> = Success(value: R) | Failure(error: E)
}
