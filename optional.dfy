/** A value that may be absent: the model of a Go nil pointer or nil interface. */
module Optional {
  datatype Option<+T> = None | Some(value: T)
}
