/** A result that may be missing, as the C code's NULL. */
module Options {
  datatype Option<T> = None | Some(value: T)
}
