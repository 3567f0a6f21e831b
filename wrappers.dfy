/** The nullable value of the source (`T | null`, `T | undefined`, an optional prop). */
module Wrappers {
  datatype Option<T> = None | Some(value: T) {
    /** The value, or `default` when absent (a destructuring default or `??`). */
    function GetOr(default: T): T {
      match this
      case Some(v) => v
      case None => default
    }
  }
}
