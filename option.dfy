/** Swift's `Optional`: `nil` is `None`. */
module Optional {

  datatype Option<+T> = None | Some(value: T) {

    /** `self ?? default`. */
    function GetOr(default: T): T
    {
      match this
      case Some(v) => v
      case None => default
    }
  }
}
