/** The optional value used wherever the script works with `None`. */
module Options {
  datatype Option<+T> = None | Some(value: T)
}
