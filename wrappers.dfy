/** Optional values and results, used wherever the source returns an
    invalid reflect.Value, a nil, or an error string. */
module Wrappers {

  datatype Option<+T> = None | Some(value: T)

  datatype Result<+R, +E> = Success(value: R) | Failure(error: E)
}
