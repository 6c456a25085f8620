/** Optional values: a missing database row, an unresolvable zone, a NULL column. */
module Wrappers {
  datatype Option<+T> = None | Some(value: T)
}
