/** A value that may be missing: a NULL pointer or a failed lookup of the server. */
module Options {
  datatype Option<+T> = None | Some(value: T)
}
