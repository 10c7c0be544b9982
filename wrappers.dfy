/** The optional value used for Go's nil-able pointers and for parse results. */
module Wrappers {
  datatype Option<+T> = None | Some(value: T)
}
