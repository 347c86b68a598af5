/** The value-or-nothing type that stands for Python's `Optional[...]` results. */
module Optional {
  datatype Option<+T> = None | Some(value: T)
}
