/** The optional value used wherever the source signals "no result" with
    NULL or a sentinel. */
module Wrappers {
  datatype Option<T> = None | Some(value: T)
}
