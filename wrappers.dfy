/** Success-or-failure values, used where the C++ code throws an exception. */
module Wrappers {

  datatype Result<+T, +E> = Ok(value: T) | Err(error: E)
}
