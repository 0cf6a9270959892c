/** An optional value: a C pointer that may be null, a Python value that may be None. */
module Options {
  datatype Option<+T> = None | Some(value: T)
}
