/** The optional value used throughout the model: a Python value that may be
    absent (`None`), or the outcome of a step that may raise. */
module Wrappers {

  datatype Option<+T> = None | Some(value: T)
}
