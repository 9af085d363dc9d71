module Options {
  /** A value that may be absent, such as the target of a pointer that may be NULL. */
  datatype Option<+T> = None | Some(value: T)
}
