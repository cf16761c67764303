/** The optional value used wherever JavaScript has `undefined`, `null`,
    `NaN` or a thrown-and-caught error. */
module Wrappers {

  datatype Option<+T> = None | Some(value: T) {

    /** Returns the value held in Some, or `default` for None. */
    function GetOr(default: T): T {
      match this
      case Some(v) => v
      case None => default
    }
  }
}
