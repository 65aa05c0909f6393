/** A result that may be absent: a C pointer that may be NULL, or a run that does not finish. */
module Options {
  datatype Option<T> = None | Some(value: T)
}
