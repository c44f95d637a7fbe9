/** Python's `None`, for the record fields and arguments that may be absent. */
module Optional {

  datatype Option<+T> = None | Some(value: T)
}
