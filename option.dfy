/** Python's `None`-or-value, as returned by the host's image lookup. */
module Optional {
  datatype Option<+T> = None | Some(value: T)
}
