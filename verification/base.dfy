/** Failure-compatible wrappers shared by every module of the model:
    `Option` for Go's "value or nil" and "value, ok" returns, and
    `Result` for Go's "value, error" returns. */
module Base {

  datatype Option<+T> = None | Some(value: T)

  datatype Result<+T, +E> = Ok(value: T) | Err(error: E) {

    predicate IsFailure() {
      Err?
    }

    function PropagateFailure<U>(): Result<U, E>
      requires Err?
    {
      Err(error)
    }

    function Extract(): T
      requires Ok?
    {
      value
    }
  }
}
