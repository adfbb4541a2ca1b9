/** Failure-carrying result types shared by every module of the model. */
module Wrappers {

  datatype Option<+T> = None | Some(value: T)

  /** A value, or the error the source raises (throws or returns) instead. */
  datatype Result<+T, +E> = Ok(value: T) | Err(error: E)

  /** The outcome of an access the source does not guard: either the value
      read, or `Undefined` where the source indexes a vector out of range
      or converts a negative floating value to `size_t` (undefined
      behaviour in C++, so nothing about the result is known). */
  datatype Lookup<+T> = Defined(value: T) | Undefined
}
