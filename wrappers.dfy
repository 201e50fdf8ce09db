/** The optional value that `std::optional` stands for in the driver. */
module Wrappers {
  datatype Option<+T> = None | Some(value: T)
}
