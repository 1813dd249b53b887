/** An optional value: Go's `nil` for results that may be absent. */
module Wrappers {
  datatype Option<T> = None | Some(value: T)
}
