/** Optional values, used for the source's nullable columns and pointers. */
module Wrappers {
  datatype Option<+T> = None | Some(value: T)
}
