// The optional value every module uses where the program uses None.

module Options {
  datatype Option<+T> = None | Some(value: T)
}
