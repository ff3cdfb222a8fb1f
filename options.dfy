/** Python's `None`-or-value results. */
module Options {

  datatype Option<+T> = None | Some(value: T)

}
