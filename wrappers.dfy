/** Optional values, for a query that may find nothing and a parse that may fail. */
module Wrappers {

  datatype Option<T> = None | Some(value: T)
}
