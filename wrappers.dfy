/** Optional values: a SQL NULL, a missing JSON field or an absent key. */
module Wrappers {

  datatype Option<+T> = None | Some(value: T)
}
