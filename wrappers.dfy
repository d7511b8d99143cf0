/** Optional values, the exception kinds the modelled code raises, and a
    failure-compatible result type carrying one of them. */
module Wrappers {

  datatype Option<+T> = None | Some(value: T)

  /** The Python exception classes raised (or caught) by the modelled code.
      SocketError stands for any OSError other than a timeout. */
  datatype Error =
    | ValueError
    | TypeError
    | IndexError
    | KeyError
    | AttributeError
    | NotImplementedError
    | TimeoutError
    | OverflowError
    | SocketError
    | LookupError

  datatype Result<+T> = Ok(value: T) | Err(error: Error) {
    predicate IsFailure() {
      Err?
    }

    function PropagateFailure<U>(): Result<U>
      requires Err?
    {
      Err(error)
    }

    function Extract(): T
      requires Ok?
    {
      value
    }
  }
}
