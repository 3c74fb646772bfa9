/** The optional value of the monitor: a measurement that may be absent
    (a lost probe) and a running minimum that does not exist before the
    first value is received. */
module Options {

  datatype Option<+T> = None | Some(value: T) {

    /** The encapsulated value, or `default` when there is none. */
    function GetOr(default: T): T {
      match this
      case Some(v) => v
      case None => default
    }
  }
}
