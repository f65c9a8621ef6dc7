/** The optional value that stands for a nullable Java value. */
module Wrappers {
  datatype Option<+T> = None | Some(value: T)
}
