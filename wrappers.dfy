/** The optional value returned by `Iterator::reduce` and similar adaptors. */
module Wrappers {
  datatype Option<+T> = None | Some(value: T)
}
