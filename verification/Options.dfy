/** The absent-or-present value. */
module Options {
  datatype Option<+T> = None | Some(value: T)
}
