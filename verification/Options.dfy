/** A value that may be absent: the program's NULL. */
module Options {
  datatype Option<+T> = None | Some(value: T)
}
