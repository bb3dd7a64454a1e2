/** Optional values, used where the source has `undefined`, a missing table entry or a failed step. */
module Wrappers {

  datatype Option<+T> = None | Some(value: T) {

    /** `value ?? fallback` */
    function GetOr(fallback: T): T {
      match this
      case Some(v) => v
      case None => fallback
    }
  }
}
