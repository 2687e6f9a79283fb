/** Optional values and find-or-fail results shared by the whole model. */
module Wrappers {

  /** Java's nullable references and `Optional<T>`. */
  datatype Option<+T> = None | Some(value: T)

  /** The error raised by the lookups of the user service: Spring's
      `UsernameNotFoundException`, carrying its message. */
  datatype NotFound = UsernameNotFound(message: string)

  /** A lookup either yields a value or fails with `NotFound`; it never yields null. */
  datatype Result<+T> = Ok(value: T) | Failure(error: NotFound)

  /** The outcome of an operation that returns nothing but may fail with `NotFound`. */
  datatype Outcome = Pass | Fail(error: NotFound)
}
