/** The optional value used for reads that may fail and lines that may not yield a record. */
module Options {
  datatype Option<+T> = None | Some(value: T)
}
