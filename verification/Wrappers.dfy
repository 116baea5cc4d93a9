/** A value that may be missing: npos, a null pointer, an unset variable. */
module Wrappers {
  datatype Option<+T> = None | Some(value: T)
}
