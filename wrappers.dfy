/** The optional value used wherever the Java code has a value that may be null
    or a parse that may fail. */
module Wrappers {
  datatype Option<+T> = None | Some(value: T)
}
