/** The result of a decoder that can reject its input. */
module Options {

  datatype Option<+T> = None | Some(value: T)
}
