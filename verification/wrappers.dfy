/** Optional values, used by searches that may find nothing. */
module Wrappers {

  /** A value that may be missing: `None`, or `Some` holding it. */
  datatype Option<+T> = None | Some(value: T)
}
