/** A value or nothing: what the sources' NULL results stand for. */
module Options {
  datatype Option<+T> = None | Some(value: T)
}
