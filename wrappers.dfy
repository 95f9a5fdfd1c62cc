/** Failure-compatible result types shared by the model. */
module Wrappers {

  /** Stands for a Java reference that may be null. */
  datatype Option<+X> = None | Some(value: X)

  /** A value, or the exception that the Java code throws instead. */
  datatype Result<+R, +E> = Ok(value: R) | Err(error: E)

  /** Normal completion of a void Java method, or the exception it throws. */
  datatype Outcome<+E> = Pass | Fail(error: E)
}
