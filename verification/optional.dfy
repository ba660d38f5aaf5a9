/** An explicit optional value, for the source's `T | undefined` parameters. */
module Optional {

  datatype Option<+T> = None | Some(value: T)
}
