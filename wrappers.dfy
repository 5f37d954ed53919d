/** Optional values: Python's `None` and the error results of reads that raise. */
module Wrappers {
  datatype Option<T> = None | Some(value: T)
}
