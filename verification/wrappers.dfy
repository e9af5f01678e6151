/** Optional values and results, used for the model's answers and the flows' errors. */
module Wrappers {

  /** A value that may be absent: a missing model answer, a failed search. */
  datatype Option<+T> = None | Some(value: T)

  /** Either a value or the error a flow rejects with. */
  datatype Result<+T, +E> = Success(value: T) | Failure(error: E)
}
