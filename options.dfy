/** An optional value: a parsed number that may be missing or unparseable. */
module Options {
  datatype Option<T> = None | Some(value: T)
}
