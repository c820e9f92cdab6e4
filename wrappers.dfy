/** Optional values and results with an error, used where the analyzer's host
    answers "no such node" or "no such symbol" (a null reference in the source). */
module Wrappers {

  datatype Option<+T> = None | Some(value: T)

  datatype Result<+R, +E> = Success(value: R) | Failure(error: E)
}
