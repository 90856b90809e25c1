/** A value or none, for what the source tells by a null pointer or a failure code. */
module Options {
  datatype Option<+T> = None | Some(value: T)
}
