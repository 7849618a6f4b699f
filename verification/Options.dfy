/** An optional value: the source's null. */
module Options {
  datatype Option<+T> = None | Some(value: T)
}
