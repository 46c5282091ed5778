/** Failure-carrying values shared by the modules of this model. */
module Common {

  /** The answer of a pull-based iterator: `None` is Python's StopIteration. */
  datatype Option<+T> = None | Some(value: T)

  /** A value or the exception the Python code raises instead. */
  datatype Result<+T, +E> = Ok(value: T) | Err(error: E)
}
