/** A value or none: the null pointers and failed look-ups of the source. */
module Options {
  datatype Option<+T> = None | Some(value: T)
}
