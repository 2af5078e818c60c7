/** An optional value, for the source's `Option` and for searches that can fail. */
module Wrappers {
  datatype Option<+T> = None | Some(value: T)
}
