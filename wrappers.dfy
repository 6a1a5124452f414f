/** Optional values (Java's null, JavaScript's undefined, Python's None) and results with an error. */
module Wrappers {

  datatype Option<+T> = None | Some(value: T)

  datatype Result<+R, +E> = Success(value: R) | Failure(error: E)
}
