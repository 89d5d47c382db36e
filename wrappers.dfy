/** Optional values: `T | null` and `T | undefined` in the source. */
module Wrappers {
  datatype Option<+T> = None | Some(value: T)
}
