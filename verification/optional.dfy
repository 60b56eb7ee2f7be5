/** A value that may be absent: a JSON field or query argument that was not sent, or a lookup that found nothing. */
module Optional {

  datatype Option<T> = None | Some(value: T) {

    /** The carried value, or `default` when there is none. */
    function GetOr(default: T): T {
      match this
      case Some(v) => v
      case None => default
    }
  }
}
