/** The optional value used throughout the model: None stands for a missing
    value (a NaN, a NaT, a failed parse or a failed match). */
module Wrappers {

  datatype Option<+T> = None | Some(value: T) {

    /** The value, or the given default when there is none. */
    function GetOr(default: T): T {
      match this
      case Some(v) => v
      case None => default
    }
  }
}
