/** The optional value used where the source returns `None`. */
module Options {

  datatype Option<+T> = None | Some(value: T)
}
