/** Error-carrying results for the operations whose Python code raises. */
module Wrappers {

  /** `Ok(value)` where the Python call returns, `Err(error)` where it raises. */
  datatype Result<T, E> = Ok(value: T) | Err(error: E)

  datatype Option<T> = None | Some(value: T)
}
