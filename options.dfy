/** The optional value returned by a downcast (std::optional). */
module Options {

  datatype Option<+T> = None | Some(value: T)
}
