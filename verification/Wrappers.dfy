/** A value that may be missing: a C function's failure return. */
module Wrappers {
  datatype Option<+T> = None | Some(value: T)
}
