/** Optional values, used for lookups that may find nothing. */
module Wrappers {

  /** `Some(value)` when a lookup succeeded, `None` otherwise. */
  datatype Option<+T> = None | Some(value: T)
}
