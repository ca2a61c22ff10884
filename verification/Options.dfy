/** A value that may be absent: Go's (value, ok) pairs and nil pointers. */
module Options {
  datatype Option<+T> = None | Some(value: T)
}
