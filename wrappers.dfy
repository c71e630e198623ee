/** The optional value that the repositories return where Python returns None. */
module Wrappers {
  datatype Option<+T> = None | Some(value: T)
}
