/** Failure-carrying datatypes shared by the model. */
module Results {

  /** A value that may be absent; `None` plays the part of Python's `None`. */
  datatype Option<+T> = None | Some(value: T) {
    function GetOr(default: T): T {
      match this
      case Some(v) => v
      case None => default
    }
  }

  /** The outcome of a step that can raise: `Err` carries the text of the exception. */
  datatype Result<+T> = Ok(value: T) | Err(msg: string)
}
