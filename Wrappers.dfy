/** Failure-carrying result types shared by the journal model, and the
    exceptions the modelled Python code raises. */
module Wrappers {

  datatype Option<T> = None | Some(value: T)

  /** The value an operation returns, or the exception it raises instead. */
  datatype Result<T> = Ok(value: T) | Err(error: Error)

  /** For operations that return nothing: they pass, or they raise. */
  datatype Outcome = Pass | Fail(error: Error)

  /** The exception classes the journal's code raises or lets escape. */
  datatype Error =
    | ValueError(message: string)
    | IntegrityError(message: string)
    | ValidationError(message: string)
}
