/** Option and Result types standing in for Python's `None` returns and raised exceptions. */
module Wrappers {

  datatype Option<+T> = None | Some(value: T)

  /** The Python exception classes the modelled code raises or lets escape. */
  datatype PyError =
    | ValueError(msg: string)
    | KeyError(msg: string)
    | IndexError(msg: string)
    | TypeError(msg: string)
    | UnboundLocalError(msg: string)
    | ScriptfileError(msg: string)
    | Exception(msg: string)

  /** A value, or the exception that escaped instead; `:-` propagates the exception. */
  datatype Result<+T> = Ok(value: T) | Err(error: PyError)
  {
    predicate IsFailure() {
      Err?
    }

    function PropagateFailure<U>(): Result<U>
      requires Err?
    {
      Err(error)
    }

    function Extract(): T
      requires Ok?
    {
      value
    }
  }
}
