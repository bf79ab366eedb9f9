/** Optional values, standing in for JavaScript's null/undefined and the `??` operator. */
module Wrappers {

  /** A value that may be absent (null or undefined in the original records). */
  datatype Option<+T> = None | Some(value: T) {

    /** `this ?? default` */
    function GetOr(default: T): T {
      match this
      case Some(v) => v
      case None => default
    }

    /** `this ?? other` where the fallback may itself be absent */
    function OrElse(other: Option<T>): Option<T> {
      match this
      case Some(_) => this
      case None => other
    }
  }
}
