/** Optional values: `None` stands for a missing cell (pandas NaN / None). */
module Wrappers {
  datatype Option<+T> = None | Some(value: T)
}
