/** Optional values (nullable columns) and success-or-error results (HTTP handlers). */
module Common {

  datatype Option<+T> = None | Some(value: T)

  datatype Result<+R, +E> = Success(value: R) | Failure(error: E)
}
