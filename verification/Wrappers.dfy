/** Result types standing for the source's optionals and exceptions. */
module Wrappers {
  datatype Option<+T> = None | Some(value: T)
}
