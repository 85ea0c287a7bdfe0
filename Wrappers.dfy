/** Optional values, for the source's `undefined` and "no file chosen" cases. */
module Wrappers {
  datatype Option<+T> = None | Some(value: T)
}
