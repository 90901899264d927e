/** The optional value used wherever the program reads something that may be absent:
    an attribute-derived timestamp, the first line of an installation record. */
module Options {

  datatype Option<+T> = None | Some(value: T) {

    /** The wrapped value, or `default` when there is none. */
    function GetOr(default: T): T {
      match this
      case Some(v) => v
      case None => default
    }
  }
}
