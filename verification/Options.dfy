/** Optional values, used for Python's `None` and for C's failure returns. */
module Options {
  datatype Option<+T> = None | Some(value: T)
}
