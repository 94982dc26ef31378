/** Optional values: a Go pointer that may be nil, or a nullable column. */
module Options {
  datatype Option<T> = None | Some(value: T)
}
