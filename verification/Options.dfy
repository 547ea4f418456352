/** Values that may be absent: NULL pointers, output slots that are not written. */
module Options {
  datatype Option<+T> = None | Some(value: T)
}
