/** Optional values and fallible results, used wherever the program returns None or
    lets an exception escape. */
module Wrappers {

  datatype Option<+T> = None | Some(value: T)

  datatype Result<+T, +E> = Success(value: T) | Failure(error: E)
}
