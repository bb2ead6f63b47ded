/** Optional values: a form field that may be absent, a query result that may be null. */
module Wrappers {

  datatype Option<+T> = None | Some(value: T)
}
