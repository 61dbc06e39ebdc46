/** The optional value used for parse results. */
module Options {

  datatype Option<T> = None | Some(value: T)
}
