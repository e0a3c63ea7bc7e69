/** Optional values, for lookups that may come back empty. */
module Options {

  datatype Option<+T> = None | Some(value: T)
}
