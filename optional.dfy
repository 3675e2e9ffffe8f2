/** A value that may be missing: `None` stands for a NaN cell of the table. */
module Optional {
  datatype Option<+T> = None | Some(value: T)
}
