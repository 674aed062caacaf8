/** Small wrappers shared by the other modules: an optional value (JavaScript's
    `undefined`/`null` versus a value) and the outcome of an operation that
    can throw. */
module Base {

  datatype Option<+T> = None | Some(value: T) {
    /** The `??` operator: the value, or `default` when there is none. */
    function GetOr(default: T): T {
      match this
      case Some(v) => v
      case None => default
    }
  }

  /** Either a value or the error the source would throw. */
  datatype Result<+T, +E> = Ok(value: T) | Err(error: E)
}
