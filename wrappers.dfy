/** Option, used for the operations of the demo that raise on bad input. */
module Wrappers {

  datatype Option<+T> = None | Some(value: T)

}
