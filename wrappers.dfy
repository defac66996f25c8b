/** The optional value used for the source's null pointers and npos results. */
module Wrappers {

  datatype Option<+T> = None | Some(value: T)
}
