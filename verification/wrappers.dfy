/** The optional-value datatype the model uses for host answers and absent outputs. */
module Wrappers {

  datatype Option<+T> = None | Some(value: T)
}
