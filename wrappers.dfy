/** The optional value used for "no result". */
module Wrappers {
  datatype Option<+T> = None | Some(value: T)
}
