module Options {

  /** The result of an operation that can fail */
  datatype Option<T> = None | Some(value: T)
}
