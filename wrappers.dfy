/** Optional values and results with an error, for the operations of the model that fail. */
module Wrappers {

  datatype Option<T> = None | Some(value: T)
  {
    predicate IsSome() { Some? }
  }

  datatype Result<T, E> = Success(value: T) | Failure(error: E)
}
