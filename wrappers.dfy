/** The optional value used wherever the engine returns a null pointer,
    an empty `std::optional` or a missing map entry. */
module Wrappers {

  datatype Option<+T> = None | Some(value: T)
}
