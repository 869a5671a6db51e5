// A value or its absence: a C function that may return NULL.

module Wrappers {
  datatype Option<+T> = None | Some(value: T)
}
