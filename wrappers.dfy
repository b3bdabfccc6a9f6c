/** Small failure-carrying datatypes shared by the whole model. */
module Wrappers {

  /** A value that may be absent: JavaScript's `null` / `undefined` for a column or a lookup. */
  datatype Option<+T> = None | Some(value: T) {
    function GetOr(default: T): T {
      match this
      case Some(v) => v
      case None => default
    }
  }

  /** How an async operation of the source ends: it resolves with a value or it rejects. */
  datatype Outcome<+T> = Returned(value: T) | Threw(message: string)
}
