/** The optional-value type used where the program returns `null` or skips an action. */
module Options {
  datatype Option<T> = None | Some(value: T)
}
