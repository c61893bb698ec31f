/** The optional value used throughout the project. */
module Options {

  datatype Option<+T> = None | Some(value: T)
}
