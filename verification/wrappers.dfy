/** The optional value the parsers return when a line or choice is rejected. */
module Wrappers {

  datatype Option<+T> = None | Some(value: T)
}
