/** The fallible-result type used wherever the C++ code throws or returns a sentinel. */
module Wrappers {

  datatype Option<+T> = None | Some(value: T)
}
