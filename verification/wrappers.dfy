/** Small datatypes shared by the model. */
module Wrappers {

  /** The result of a lookup that may find nothing. */
  datatype Option<+T> = None | Some(value: T)
}
