/** A value that may be absent: a null pointer or a failed lookup in the sources. */
module Options {
  datatype Option<+T> = None | Some(value: T)
}
