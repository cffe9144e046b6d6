/** Failure-compatible wrappers shared by the whole model: `Option` for values
    PHP reports as absent (`null`, `false`), and `Result` for operations that
    throw. An `Err` carries the message the PHP code would throw. */
module Results {

  datatype Option<+T> = None | Some(value: T) {

    function GetOr(default: T): T {
      match this
      case Some(v) => v
      case None => default
    }
  }

  datatype Result<+T> = Ok(value: T) | Err(message: string) {

    predicate IsFailure() {
      Err?
    }

    function PropagateFailure<U>(): Result<U>
      requires Err?
    {
      Err(message)
    }

    function Extract(): T
      requires Ok?
    {
      value
    }
  }
}
