/** Optional values, used where the source has `undefined`, `null` or an invalid result. */
module Wrappers {
  datatype Option<+T> = None | Some(value: T)
}
