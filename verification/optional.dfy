/** The optional value used for inputs that may be missing. */
module Optional {

  /** `None` stands for Python's `None`. */
  datatype Option<+T> = None | Some(value: T)
}
