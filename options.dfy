/** The optional value used wherever the code can yield `undefined`. */
module Options {
  datatype Option<+T> = None | Some(value: T)
}
