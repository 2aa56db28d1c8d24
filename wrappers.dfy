/** Results of Python code that may raise: `Ok` carries the value returned, `Err` the exception raised
    (or the `exit` status) that ends the operation. */
module Wrappers {

  datatype Option<T> = None | Some(value: T)

  /** The exceptions and process exits the modelled scripts can end with. */
  datatype PyError =
    | ValueError(msg: string)
    | IndexError
    | TypeError
    | RuntimeError(msg: string)
    | FileNotFoundError(msg: string)
    | GenericException(msg: string)
    | RecursionError
    | NameError(name: string)
    | AttributeError
    | Exit(status: int)

  datatype Result<T> = Ok(value: T) | Err(error: PyError)
  {
    predicate IsFailure() { Err? }

    function PropagateFailure<U>(): Result<U>
      requires Err?
    {
      Err(error)
    }

    function Extract(): T
      requires Ok?
    {
      value
    }
  }
}
