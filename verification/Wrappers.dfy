/** The optional value used for SQL NULL, a missing dictionary key and a field left out of a request. */
module Wrappers {
  datatype Option<+T> = None | Some(value: T)
}
