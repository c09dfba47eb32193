/** The optional value used where the source catches an exception and carries on. */
module Wrappers {
  datatype Option<+T> = None | Some(value: T)
}
