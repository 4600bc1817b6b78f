/** The usual optional value, used where the source leaves a variable at `None`. */
module Opt {
  datatype Option<+T> = None | Some(value: T)
}
