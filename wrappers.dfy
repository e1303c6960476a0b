/** Optional values and results with an error message, used wherever a
    TypeScript value may be `undefined`/`null` or an operation may throw. */
module Wrappers {

  datatype Option<+T> = None | Some(value: T) {
    /** `x ?? d` in TypeScript */
    function GetOr(default: T): T {
      match this
      case Some(v) => v
      case None => default
    }
  }

  datatype Result<+T> = Success(value: T) | Failure(error: string)
}
