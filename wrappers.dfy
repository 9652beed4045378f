/** The optional value used for database lookups and foreign calls that may fail. */
module Wrappers {
  datatype Option<+T> = None | Some(value: T)
}
