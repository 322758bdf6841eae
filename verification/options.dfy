/** The optional result the C++ code expresses with a null pointer or a sentinel. */
module Options {

  datatype Option<T> = None | Some(value: T)
}
