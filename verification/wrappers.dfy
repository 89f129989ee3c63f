/** The optional-value datatype used wherever the source returns `undefined`
    or stores a nullable column. */
module Wrappers {

  /** `None` stands for JavaScript `undefined` / SQL `NULL`. */
  datatype Option<+T> = None | Some(value: T) {

    /** The value held in `Some`, or `default` for `None` */
    function GetOr(default: T): T {
      match this
      case Some(v) => v
      case None() => default
    }
  }
}
