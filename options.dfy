/** An optional value: `None` stands for a missing key, an unparsable input or an exception
    the script catches. */
module Options {
  datatype Option<+T> = None | Some(value: T) {
    function GetOr(default: T): T {
      match this
      case Some(v) => v
      case None => default
    }
  }
}
