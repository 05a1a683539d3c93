/** A value or none: the C code's null pointer. */
module Options {
  datatype Option<+T> = None | Some(value: T)
}
