/** Optional values and service results, standing in for Java's nullable
    references, `Optional<T>` and thrown persistence exceptions. */
module Wrappers {

  datatype Option<+T> = None | Some(value: T)

  datatype Result<+T, +E> = Success(value: T) | Failure(error: E)
}
