/** Option and Result values shared by the other modules. */
module Outcomes {

  /** Python's `Optional[T]`: `None`, or a present value. */
  datatype Option<+T> = None | Some(value: T)

  /** The value of a computation, or the error that the Python code would raise. */
  datatype Result<+T, +E> = Ok(value: T) | Err(error: E)
}
