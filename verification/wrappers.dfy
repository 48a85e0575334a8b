/** Optional values, used for a selection that may be absent. */
module Wrappers {

  /** Some(value), or None for JavaScript's `undefined`. */
  datatype Option<+T> = None | Some(value: T)
}
