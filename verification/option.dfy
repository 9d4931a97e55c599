/** The optional value of Python's `None`-or-value results and parameters. */
module Options {
  datatype Option<+T> = None | Some(value: T)
}
