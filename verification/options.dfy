/** The optional value every fallible read and every resolution step returns:
    `None` stands for a host call that threw (and was caught) or a value that was
    rejected, `Some` for a usable result. */
module Options {

  datatype Option<+T> = None | Some(value: T) {

    /** The wrapped value, or `default` when there is none */
    function GetOr(default: T): T {
      match this
      case Some(v) => v
      case None => default
    }
  }
}
