/** Option, the stand-in for Java's null and for java.util.Optional. */
module Wrappers {

  datatype Option<+T> = None | Some(value: T) {

    /** The wrapped value, or `default` when there is none (Optional.orElse). */
    function GetOr(default: T): T {
      match this
      case Some(v) => v
      case None => default
    }
  }
}
