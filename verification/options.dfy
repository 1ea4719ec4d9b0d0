/** The optional value used wherever the Java code returns or accepts `null`. */
module Options {

  datatype Option<+T> = None | Some(value: T) {

    /** Returns the value, or `default` when absent (Java's `orElse`). */
    function GetOr(default: T): T {
      match this
      case Some(v) => v
      case None => default
    }
  }
}
