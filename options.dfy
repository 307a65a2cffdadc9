/** An optional value: the found / not-found outcome of a lookup. */
module Options {

  datatype Option<+T> = None | Some(value: T)
}
