/** The optional value that the Java code expresses with `null`. */
module Wrappers {
  datatype Option<+T> = None | Some(value: T)
}
