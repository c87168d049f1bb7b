/** A value that may be absent: JavaScript's `undefined` on an optional-chaining path. */
module Wrappers {
  datatype Option<+T> = None | Some(value: T)
}
