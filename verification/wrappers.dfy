/** The optional value the scanners return when a pattern may or may not match. */
module Wrappers {

  datatype Option<+T> = None | Some(value: T)
}
