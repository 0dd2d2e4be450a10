/** Optional values: pandas' missing value (NaN / NaT) is `None`. */
module Wrappers {
  datatype Option<+T> = None | Some(value: T)
}
