/** The optional value used for absent cells, unresolved columns and failed parses. */
module Wrappers {
  datatype Option<+T> = None | Some(value: T)
}
