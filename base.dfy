/** Values shared by both scripts: an optional value, the outcome of a call
    that may raise, and raw bytes. */
module Base {

  datatype Option<+T> = None | Some(value: T) {
    function GetOr(default: T): T {
      match this
      case Some(v) => v
      case None => default
    }
  }

  /** The result of a call that either returns a value or raises one of the
      `requests` library's exceptions. */
  datatype Result<+T> = Ok(value: T) | RequestError

  newtype byte = x: int | 0 <= x < 256

  type Bytes = seq<byte>
}
