/** Option, used wherever the source returns nil or an (value, found) pair. */
module Wrappers {
  datatype Option<+T> = None | Some(value: T)
}
