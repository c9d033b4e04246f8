/** The optional value used wherever the source returns `null` or a field may be absent. */
module Options {
  datatype Option<+T> = None | Some(value: T)
}
