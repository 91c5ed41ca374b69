/** A value that may be absent: a null pointer, a refused operation. */
module Options {
  datatype Option<+T> = None | Some(value: T)
}
