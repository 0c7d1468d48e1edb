/** The optional value used wherever a C call can fail and return NULL. */
module Wrappers {
  datatype Option<+T> = None | Some(value: T)
}
