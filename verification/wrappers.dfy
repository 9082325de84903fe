/** Failure-carrying values: `None` stands for Python's `None` (and for NaN
    where a float could not be read), `Err` for a raised exception. */
module Wrappers {

  datatype Option<+T> = None | Some(value: T)

  datatype Result<+T, +E> = Ok(value: T) | Err(error: E)
}
