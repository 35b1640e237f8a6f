/**
 * Optional values and results with an error, used for the script's `undefined` values and
 * thrown errors, and JavaScript truthiness of an optional string.
 */
module Wrappers {

  datatype Option<+T> = None | Some(value: T)

  datatype Result<+R, +E> = Success(value: R) | Failure(error: E)

  /** JavaScript truthiness of a possibly undefined string: defined and non-empty. */
  predicate Truthy(s: Option<string>) {
    s.Some? && s.value != ""
  }
}
