/** Optional values: a Mongo query that may find nothing, a request field that may be absent. */
module Wrappers {
  datatype Option<+T> = None | Some(value: T)
}
