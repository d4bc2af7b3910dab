/** The optional value used where a reader of the model's text formats can fail. */
module Wrappers {

  datatype Option<+T> = None | Some(value: T)
}
