/** The optional value returned by lookups and parsers. */
module Wrappers {
  datatype Option<+T> = None | Some(value: T)
}
