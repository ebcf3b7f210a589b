/** The optional value used for absent lists, nil slices and failed parses. */
module Options {
  datatype Option<T> = None | Some(value: T)
}
