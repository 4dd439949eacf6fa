/** A value or its absence: a NULL result, a pointer that cannot be followed, a failed receive. */
module Options {
  datatype Option<+T> = None | Some(value: T)
}
