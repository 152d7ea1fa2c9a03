/** Optional values and results with an error, shared by every module of the parser model. */
module Wrappers {

  /** A value that may be absent: Python's `None` versus a present value. */
  datatype Option<+T> = None | Some(value: T)

  /** The exceptions the core raises, as values. */
  datatype Error = ZeroDivision

  /** Either a value or the exception the source would raise. */
  datatype Result<+T> = Ok(value: T) | Err(error: Error)
}
