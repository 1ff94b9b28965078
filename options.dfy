/** The optional value used wherever the source returns `Option` or would panic. */
module Options {
  datatype Option<T> = None | Some(value: T)
}
