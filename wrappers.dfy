/** Failure-compatible wrappers used for the Python code's optional values
    and for the exceptions and `sys.exit` calls that end an operation. */
module Wrappers {

  datatype Option<+T> = None | Some(value: T)

  datatype Result<+T, +E> = Ok(value: T) | Err(error: E)
}
