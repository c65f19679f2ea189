/** A value that may be missing: a null result, a thread that is not there. */
module Options {
  datatype Option<+T> = None | Some(value: T)
}
