/** A value that may be absent: a null pointer, a missing argument. */
module Optional {
  datatype Option<T> = None | Some(value: T)
}
