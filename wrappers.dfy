/** The optional value used throughout the model: `None` stands for JavaScript's
    `undefined` (an absent field, a failed lookup, a NaN parse). */
module Wrappers {

  datatype Option<+T> = None | Some(value: T) {

    /** The value, or `default` when there is none. */
    function GetOr(default: T): T {
      match this
      case Some(v) => v
      case None => default
    }
  }
}
