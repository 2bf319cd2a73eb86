/** The optional value shared by the three components. */
module Wrappers {
  datatype Option<+T> = None | Some(value: T)
}
