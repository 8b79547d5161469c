/** The option type of the project, used for Go's nil-able errors and values. */
module Options {
  datatype Option<+T> = None | Some(value: T)
}
