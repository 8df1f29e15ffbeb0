/** Optional values: pandas' missing value (NaN/None) and Python's `None` result. */
module Wrappers {

  datatype Option<+T> = None | Some(value: T)
}
