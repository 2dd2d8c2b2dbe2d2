/** Optional values: Python's `None` and the absent results of the dashboard's queries. */
module Wrappers {

  datatype Option<+T> = None | Some(value: T)
}
