/** A value that may be absent: a NULL pointer argument or a failed call of the C code. */
module Options {
  datatype Option<+T> = None | Some(value: T)
}
