/** The optional value that stands for a nullable reference returned by a lookup. */
module Wrappers {

  datatype Option<+T> = None | Some(value: T)
}
