/** The optional value used for configuration ids, fetch outcomes and messages. */
module Options {
  datatype Option<+T> = None | Some(value: T)
}
