/** Option and Result: `null` / `undefined` results and thrown errors of the handlers. */
module Wrappers {

  datatype Option<+T> = None | Some(value: T) {
    /** The value, or `default` when absent (TypeScript's `??`). */
    function GetOr(default: T): T {
      match this
      case Some(v) => v
      case None => default
    }
  }

  /** `Ok` is a normal return; `Err` is a `throw new Error(...)`. */
  datatype Result<+T, +E> = Ok(value: T) | Err(error: E)
}
