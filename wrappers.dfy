/** The optional value used for the active repository and for optional arguments. */
module Wrappers {
  datatype Option<+T> = None | Some(value: T)
}
