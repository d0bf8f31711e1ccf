/** The optional value used throughout the model for Python's `None`. */
module Options {
  datatype Option<T> = None | Some(value: T)
}
