/** The optional value used wherever Go returns a nil-able error or a missing entry. */
module Wrappers {
  datatype Option<+T> = None | Some(value: T)
}
