/** A value that may be absent (JavaScript's `undefined`, a name that matches nothing). */
module Wrappers {
  datatype Option<T> = None | Some(value: T)
}
