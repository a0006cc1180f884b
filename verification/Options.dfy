module Options {
  /** A C pointer or value that may be absent. */
  datatype Option<+T> = None | Some(value: T)
}
