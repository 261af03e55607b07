/** A nullable reference, written as an option value. */
module Wrappers {
  datatype Option<+T> = None | Some(value: T)
}
