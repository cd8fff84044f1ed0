/** The usual optional value, for the source's `nullptr` and `std::optional` results. */
module Options {
  datatype Option<+T> = None | Some(value: T)
}
