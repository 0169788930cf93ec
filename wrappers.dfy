/** Optional values and results, used where the Python code passes `None`
    or raises an exception that ends the invocation. */
module Wrappers {

  datatype Option<+T> = None | Some(value: T)

  datatype Result<+T, +E> = Success(value: T) | Failure(error: E)
}
