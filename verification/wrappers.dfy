/** Optional values and success/failure results, standing in for Kotlin's
    nullable types and for the exceptions the service throws. */
module Wrappers {

  /** A Kotlin `T?`: `None` is `null`. */
  datatype Option<+T> = None | Some(value: T)

  /** The outcome of an operation that the source either completes or aborts
      with an exception. */
  datatype Result<+R, +E> = Success(value: R) | Failure(error: E)
}
