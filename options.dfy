/** The usual Some/None wrapper: `None` stands for a call that raised an error. */
module Options {
  datatype Option<+T> = None | Some(value: T)
}
