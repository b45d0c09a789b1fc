/** A value that may be absent: Java's `null` and `Optional.empty()`. */
module Common {

  datatype Option<T> = None | Some(value: T) {

    /** The value, or `default` when there is none (Java's `orElse`). */
    function GetOr(default: T): T {
      match this
      case Some(v) => v
      case None => default
    }
  }
}
