/** The optional value used wherever JavaScript has `null` or `undefined`. */
module Options {

  datatype Option<+T> = None | Some(value: T)
}
