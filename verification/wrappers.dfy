/** The optional value used for the transient cache slot and the primary source's article list. */
module Wrappers {

  datatype Option<+T> = None | Some(value: T)
}
