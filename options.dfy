/** An optional value, standing for JavaScript's `undefined` result. */
module Options {

  datatype Option<T> = None | Some(value: T)
}
