/** A value that may be absent: JavaScript's `undefined` / `null` for an
    optional field, a missing URL parameter or a failed `find`. */
module Optional {

  datatype Option<+T> = None | Some(value: T) {

    function GetOr(default: T): T {
      match this
      case Some(v) => v
      case None => default
    }
  }
}
