/** The optional value used for C's nullable pointers. */
module Wrappers {
  datatype Option<T> = None | Some(value: T)
}
