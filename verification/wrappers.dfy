/** Optional values and error-carrying results, the model's stand-ins for the
    `null` returns and thrown exceptions of the extension's JavaScript. */
module Wrappers {

  /** A value that may be absent (`null` or `undefined` in the source). */
  datatype Option<+T> = None | Some(value: T) {
    function GetOr(default: T): T {
      match this
      case Some(v) => v
      case None => default
    }
  }

  /** The outcome of an operation that may throw: `Fail` carries the error message. */
  datatype Result<+T> = Ok(value: T) | Fail(error: string)
}
