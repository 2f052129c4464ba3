/** The optional value used by the pattern reader. */
module Wrappers {
  datatype Option<+T> = None | Some(value: T)
}
