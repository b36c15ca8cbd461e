/** Optional values (TypeScript's `T | null` and optional properties) and results of
    calls that either produce a value or throw. */
module Wrappers {

  datatype Option<+T> = None | Some(value: T)

  datatype Result<+R, +E> = Success(value: R) | Failure(error: E)
}
