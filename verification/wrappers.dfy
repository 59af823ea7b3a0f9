/** Failure-carrying values used across the model: an optional value (a JS
    `undefined`/`null` or a lookup that found nothing) and a result that is
    either a value or an error message (a thrown exception). */
module Wrappers {

  datatype Option<+T> = None | Some(value: T) {
    /** The wrapped value, or `default` when there is none (JS `x || default`
        for values that are never falsy). */
    function GetOr(default: T): T {
      match this
      case Some(v) => v
      case None => default
    }
  }

  datatype Result<+T> = Ok(value: T) | Err(msg: string)
}
