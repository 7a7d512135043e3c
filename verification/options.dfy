/** The usual Some/None wrapper, used where the source signals "not found". */
module Options {
  datatype Option<+T> = None | Some(value: T)
}
