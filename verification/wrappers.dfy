/**
  A small optional-value datatype, standing for Java's null result of a
  map lookup.
 */
module Wrappers {

  datatype Option<+T> = None | Some(value: T)
}
