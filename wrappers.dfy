/** Optional values: JavaScript's `undefined`/`null` and React's nullable refs. */
module Wrappers {

  datatype Option<+T> = None | Some(value: T) {

    /** The value, or `default` when absent (the `??` operator). */
    function GetOr(default: T): T {
      match this
      case Some(v) => v
      case None => default
    }
  }

  /** A validation outcome: a value, or a message for the user. */
  datatype Result<+T> = Ok(value: T) | Err(message: string)
}
