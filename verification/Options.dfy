/** Optional values: NULL pointers, failed searches, input that means nothing. */
module Options {
  datatype Option<T> = None | Some(value: T)
}
