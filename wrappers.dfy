/** Optional values: `None` stands for a Python `None` or for a call that raised. */
module Wrappers {
  datatype Option<+T> = None | Some(value: T)
}
