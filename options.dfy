/** The optional value used wherever JavaScript gives `undefined` or an
    operation of the host can fail without saying why. */
module Options {

  datatype Option<+T> = None | Some(value: T) {

    /** The carried value, or `default` when there is none. */
    function GetOr(default: T): T {
      match this
      case Some(v) => v
      case None => default
    }
  }
}
