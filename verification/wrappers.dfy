/** The optional value used wherever the source reads a possibly-missing
    entry (an out-of-range array index, a null editing target). */
module Wrappers {

  datatype Option<+T> = None | Some(value: T)
}
