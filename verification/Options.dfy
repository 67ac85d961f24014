/** A value that may be missing: the source's Optional fields, None results and dictionary gets. */
module Options {
  datatype Option<T> = None | Some(value: T)
}
