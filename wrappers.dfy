/** The optional value that stands in for a null pointer or a "not found" return. */
module Wrappers {
  datatype Option<+T> = None | Some(value: T)
}
