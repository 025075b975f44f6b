/** The usual optional value, used for `find` lookups that may come back empty. */
module Optional {
  datatype Option<+T> = None | Some(value: T)
}
