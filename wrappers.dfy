/** The optional value shared by the modules of this model: None stands for
    the C programs' NULL results. */
module Wrappers {
  datatype Option<+T> = None | Some(value: T)
}
