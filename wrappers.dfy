/** The Option datatype used throughout the model for JavaScript's
    `null` / `undefined` (None) versus a present value (Some). */
module Wrappers {

  datatype Option<+T> = None | Some(value: T) {

    /** The present value, or `default` when absent (`x ?? default`). */
    function GetOr(default: T): T {
      match this
      case Some(v) => v
      case None => default
    }
  }
}
