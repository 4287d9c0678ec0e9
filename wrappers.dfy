/** Optional values: a request parameter that may be absent, or a nullable column. */
module Wrappers {
  datatype Option<+T> = None | Some(value: T)
}
