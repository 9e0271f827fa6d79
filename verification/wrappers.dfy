/**
 * A field of the document that may be missing: JavaScript's `undefined` or
 * `null` on one side, a present value on the other.
 */
module Wrappers {

  datatype Option<T> = None | Some(value: T)

  /** The present value, or `fallback` when the field is missing. */
  function ValueOr<T>(field: Option<T>, fallback: T): T {
    if field.Some? then field.value else fallback
  }
}
