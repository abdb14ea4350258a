/** Option and Result values standing in for Python's None and raised exceptions. */
module Wrappers {

  /** `None` is Python's `None` (or a pandas NaN); `Some(v)` a present value. */
  datatype Option<+T> = None | Some(value: T)

  /** `Failure(e)` is an exception of kind `e` raised part-way; `Success(v)` a normal return. */
  datatype Result<+R, +E> = Success(value: R) | Failure(error: E)
}
