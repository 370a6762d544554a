/** The optional value that the library returns where C++ uses std::optional. */
module Wrappers {

  datatype Option<+T> = None | Some(value: T)
}
