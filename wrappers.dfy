/** The Option type shared by the modules of this model (Python's None vs a value). */
module Wrappers {

  datatype Option<+T> = None | Some(value: T)
}
