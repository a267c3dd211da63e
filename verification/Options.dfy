/** Optional values, for R's NULL and for readers that refuse their input. */
module Options {
  datatype Option<+T> = None | Some(value: T)
}
