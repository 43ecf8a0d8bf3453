/** The optional value returned by the table scans of the translation engine. */
module Wrappers {

  datatype Option<+T> = None | Some(value: T)
}
