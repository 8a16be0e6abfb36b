/** An optional value: a match that may fail, a map entry that may be missing. */
module Wrappers {
  datatype Option<T> = None | Some(value: T)
}
