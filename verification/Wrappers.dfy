/** A value that may be missing: a null reference in the Java and C sources. */
module Wrappers {
  datatype Option<+T> = None | Some(value: T)
}
