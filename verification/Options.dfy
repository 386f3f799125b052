/** The usual optional value, in place of Go's nil pointers and second boolean results. */
module Options {
  datatype Option<+T> = None | Some(value: T)
}
