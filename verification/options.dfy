/** An optional value, for look-ups that may find nothing. */
module Options {

  datatype Option<T> = None | Some(value: T)
}
