/** The conventional Some/None datatype, used where the program has a nil or a missing value. */
module Wrappers {
  datatype Option<+T> = None | Some(value: T)
}
