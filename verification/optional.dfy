/** The Some/None value standing for Python's `None` or a match object. */
module Optional {

  datatype Option<+T> = None | Some(value: T)
}
