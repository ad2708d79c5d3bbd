/** Optional values, used where the C code returns a sentinel or nothing. */
module Wrappers {
  datatype Option<+T> = None | Some(value: T)
}
