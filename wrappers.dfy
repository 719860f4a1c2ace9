/** Optional values: a missing JSON field, a query with no row, a failed parse. */
module Wrappers {
  datatype Option<+T> = None | Some(value: T)
}
