/** Failure-carrying results shared by the modules of the model. */
module Outcomes {

  /** A value that may be absent: Python's `None` versus a present value. */
  datatype Option<+T> = None | Some(value: T)

  /** Either a normal return or the exception a call raised. */
  datatype Result<+R, +E> = Ok(value: R) | Err(error: E)
}
