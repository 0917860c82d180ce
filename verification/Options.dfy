/** Values that may be missing: null pointers, failed searches. */
module Options {
  datatype Option<+T> = None | Some(value: T)
}
