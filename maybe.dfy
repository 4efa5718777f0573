/** The optional value every fallible operation of the engine returns (NULL in the source). */
module Maybe {
  datatype Option<T> = None | Some(value: T)
}
