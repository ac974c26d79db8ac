/** The optional value the scripts write as `T | undefined` or `T | null`. */
module Options {
  datatype Option<+T> = None | Some(value: T)
}
