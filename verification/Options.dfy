/** A value that may be missing: a null pointer, a rejected encoding, a search that runs off its end. */
module Options {
  datatype Option<+T> = None | Some(value: T)
}
