/** An optional value: `None` stands for C#'s `null` wherever the source returns or stores one. */
module Options {
  datatype Option<+T> = None | Some(value: T)
}
