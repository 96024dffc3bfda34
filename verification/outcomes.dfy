/** Failure-carrying wrappers shared by every other module. */
module Outcomes {

  /** A value that may be absent: a JavaScript `undefined`/`null` field, a regex
      that found nothing, a request whose answer could not be used. */
  datatype Option<+T> = None | Some(value: T) {

    /** The encapsulated value, or `default` when absent (JavaScript's `x || default`
        for values whose only falsy form is the absent one). */
    function GetOr(default: T): T {
      match this
      case Some(v) => v
      case None => default
    }
  }

  /** The outcome of an operation that can throw: `Err` carries the thrown error. */
  datatype Result<+T, +E> = Ok(value: T) | Err(error: E)
}
