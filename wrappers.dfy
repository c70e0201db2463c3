/** The optional value the model uses for nullable pointers and
    `std::optional` results. */
module Wrappers {

  datatype Option<+T> = None | Some(value: T)
}
