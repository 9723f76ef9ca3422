/** Optional values (TypeScript's `field?: T` and `T | undefined`) and
    results of operations that can throw. */
module Wrappers {

  datatype Option<+T> = None | Some(value: T) {

    /** `x || d` / `x ?? d` on an optional value. */
    function GetOr(default: T): T {
      match this
      case Some(v) => v
      case None => default
    }
  }

  /** A call that either returns a value or throws an error message. */
  datatype Result<+R, +E> = Success(value: R) | Failure(error: E)
}
