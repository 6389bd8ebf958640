/** The optional value used wherever the source returns nil or an error instead of a result. */
module Options {
  datatype Option<T> = None | Some(value: T)
}
