/** Optional values, used for JavaScript's `undefined` results. */
module Wrappers {
  datatype Option<+T> = None | Some(value: T)
}
