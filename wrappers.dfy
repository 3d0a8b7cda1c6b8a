/** Optional values: `None` stands for the source's `None` results and for the
    `float('inf')` / `float('-inf')` sentinels of the running extrema. */
module Wrappers {
  datatype Option<+T> = None | Some(value: T)
}
