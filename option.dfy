/** Optional values: `T | undefined` results and nullable columns. */
module Optional {

  datatype Option<+T> = None | Some(value: T)
}
