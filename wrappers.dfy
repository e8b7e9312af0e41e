/** Optional values, results, and the exceptions the Python code raises. */
module Wrappers {

  datatype Option<+T> = None | Some(value: T)

  datatype Result<+T, +E> = Ok(value: T) | Err(error: E)

  /** A Python exception: its class name and its message (what str(e) gives). */
  datatype Exception = Exception(kind: string, message: string)

  const ValueError := "ValueError"
}
