/** Nullable values and error-or-value results, as the services use them.

- Option<T> stands for a C# or JavaScript value that may be null.
- Result<T, E> stands for a call that either returns or throws.
 */
module Wrappers {

  /** A possibly-null value. */
  datatype Option<+T> = None | Some(value: T) {

    /** The C# `??` operator: this value, or `default` when it is null. */
    function GetOr(default: T): (r: T)
      ensures Some? ==> r == value
      ensures None? ==> r == default
    {
      match this
      case Some(v) => v
      case None => default
    }
  }

  /** The outcome of a service call that may throw. */
  datatype Result<+T, +E> = Ok(value: T) | Err(error: E)
}
