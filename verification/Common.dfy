// Types shared by the component models.
module Common {

  type Byte = x: int | 0 <= x < 256

  /** A Go value that may be absent: a nil pointer, a nil slice, a missing map entry. */
  datatype Option<+T> = None | Some(value: T) {
    function GetOr(default: T): T {
      match this
      case Some(v) => v
      case None => default
    }
  }
}
