/** Option and Result values standing in for Java's null returns and thrown exceptions. */
module Wrappers {

  /** A reference that may be null. */
  datatype Option<T> = None | Some(value: T) {

    /** The held value, or `default` for a null reference. */
    function GetOr(default: T): T {
      match this
      case Some(v) => v
      case None => default
    }
  }

  /** Either a returned value or a thrown error. */
  datatype Result<T, E> = Ok(value: T) | Err(error: E) {

    /** The same outcome with `u` in place of a returned value. */
    function Replace<U>(u: U): Result<U, E> {
      match this
      case Ok(_) => Ok(u)
      case Err(e) => Err(e)
    }
  }
}
