/** A value that may be absent: `std::optional`, a null pointer, or a thrown exception. */
module Options {
  datatype Option<+T> = None | Some(value: T)
}
