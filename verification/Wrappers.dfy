/** Optional values, used wherever the source answers None. */
module Wrappers {
  datatype Option<+T> = None | Some(value: T)
}
