/** The exceptions of the Wordle code and the result types that carry them. */
module Outcomes {

  /** The Python exceptions the modelled code can raise. */
  datatype Error = ValueError | RuntimeError | IndexError | KeyError

  /** A value, or the exception raised instead of returning it. */
  datatype Result<T> = Ok(value: T) | Err(error: Error)

  /** A call that returns nothing, or the exception it raised. */
  datatype Outcome = Pass | Fail(error: Error)

  datatype Option<T> = None | Some(value: T)
}
