/** Option and Result, used for Python's `None` and for operations that can raise. */
module Wrappers {

  datatype Option<+T> = None | Some(value: T)

  /** `Ok(v)` is a normal return with value `v`; `Err(e)` is an exception `e` escaping the call. */
  datatype Result<+T, +E> = Ok(value: T) | Err(error: E)
}
