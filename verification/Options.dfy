/** A value that may be missing: Go's nil and comma-ok results. */
module Options {
  datatype Option<+T> = None | Some(value: T)
}
