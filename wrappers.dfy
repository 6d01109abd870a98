/** Failure-compatible result types shared by the model. */
module Wrappers {

  /** A value that may be missing: `null` in the source, or a thrown and swallowed exception. */
  datatype Option<+T> = None | Some(value: T) {
    function GetOr(default: T): T {
      match this
      case Some(v) => v
      case None => default
    }
  }

  /** The `{ success, ... }` objects returned by the server actions. */
  datatype Outcome<+T> = Success(value: T) | Failure(error: string)
}
