module Options {

  /** A Python value that may be None, or a result that an exception may replace. */
  datatype Option<+T> = None | Some(value: T)
}
