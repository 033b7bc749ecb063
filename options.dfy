/** An optional value: a null reference in the engine, a missing cell or tile here. */
module Options {
  datatype Option<T> = None | Some(value: T)
}
