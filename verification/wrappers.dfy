/** The failure datatypes shared by every module of the model.
    Python raises an exception where these return `Err`; the exception class is
    kept so that the error cases of the exercises can be stated exactly. */
module Wrappers {

  /** The Python exception classes raised by the modelled code. */
  datatype PyError =
    | TypeError
    | KeyError(key: string)
    | IndexError
    | ValueError(text: string)
    | ZeroDivisionError
    | AttributeError(name: string)

  /** A value that may be absent, as `dict.get` returns. */
  datatype Option<+T> = None | Some(value: T)

  /** Either the value a Python call returns or the exception it raises. */
  datatype Result<+T> = Ok(value: T) | Err(error: PyError) {

    predicate IsFailure() {
      Err?
    }

    function PropagateFailure<U>(): Result<U>
      requires Err?
    {
      Err(error)
    }

    function Extract(): T
      requires Ok?
    {
      value
    }
  }
}
