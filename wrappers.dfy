/** The optional value used for "no match", "parse failed" and missing table cells. */
module Wrappers {

  datatype Option<+T> = None | Some(value: T)
}
