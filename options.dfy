/** The optional value used wherever the source may find nothing. */
module Options {
  datatype Option<+T> = None | Some(value: T)
}
