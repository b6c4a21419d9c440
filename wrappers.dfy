/** Optional values: `None` stands for Python's `None` result. */
module Wrappers {
  datatype Option<+T> = None | Some(value: T)
}
