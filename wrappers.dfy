/** Optional values and fallible results: JavaScript's `null`/`undefined` next to a present value, and a call that either returns or reports an error message. */
module Wrappers {

  datatype Option<+T> = None | Some(value: T) {

    /** The value, or `default` when there is none (JavaScript's `x || default` on present values). */
    function GetOr(default: T): T {
      match this
      case Some(v) => v
      case None => default
    }
  }

  /** The `{ data, error }` pair a store call resolves to: data, or an error message. */
  datatype Result<+T> = Ok(value: T) | Error(message: string)
}
