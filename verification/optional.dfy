/** Option and Result wrappers: `None` stands for a Java `null`, `Failure`
    for an exception the modelled code throws to its caller. */
module Optional {

  datatype Option<+T> = None | Some(value: T) {

    /** The value, or `default` for `None`. */
    function GetOr(default: T): T {
      match this
      case Some(v) => v
      case None => default
    }
  }

  datatype Result<+R, +E> = Success(value: R) | Failure(error: E)
}
