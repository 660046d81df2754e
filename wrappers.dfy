/** The optional and fallible values of the modelled code. */
module Wrappers {

  /** `undefined`/`null`, or a value. */
  datatype Option<+T> = None | Some(value: T)

  /** A value, or the exception a call throws and does not catch. */
  datatype Result<+T> = Success(value: T) | Failure(error: string)
}
