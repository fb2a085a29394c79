/** The optional value used for the results of fallible steps. */
module Wrappers {
  datatype Option<+T> = None | Some(value: T)
}
