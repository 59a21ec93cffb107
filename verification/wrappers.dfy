/** Failure-compatible wrappers shared by every module of the model, and the
    exceptions the modelled Python code can raise. */
module Wrappers {

  /** Some value or nothing (Python's `None`). */
  datatype Option<+T> = None | Some(value: T)

  /** A value, or the exception that the Python code would have raised. */
  datatype Result<+T, +E> = Ok(value: T) | Err(error: E)

  /** The exceptions that escape the modelled functions. */
  datatype Exception =
    | KeyError(key: string)
    | IndexError
    | ValueError(message: string)
    | TypeError(message: string)
    | AttributeError(name: string)
    | UnboundLocalError(name: string)
    | EOFError
    | AssertionError
    | UncaughtRequestError(name: string)
    /** A frame shape the model does not represent (duplicate column labels). */
    | Unsupported(message: string)
}
