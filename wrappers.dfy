/** Optional values: a SQL NULL column, a lookup that finds no row, a parse that fails. */
module Wrappers {
  datatype Option<+T> = None | Some(value: T)
}
