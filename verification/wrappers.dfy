/** Optional and result wrappers used throughout the model: Java's nullable
    references and `Optional` become `Optional`, thrown exceptions become `Result`. */
module Wrappers {

  /** A value that may be absent (Java `null` / `Optional.empty()`). */
  datatype Optional<+T> = None | Some(value: T)

  /** The outcome of an operation that may throw. */
  datatype Result<+T, +E> = Ok(value: T) | Err(error: E)
}
