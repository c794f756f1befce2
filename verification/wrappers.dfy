/** The optional value used wherever the map reader can fail: a parse that throws in the
    original becomes `None` here. */
module Wrappers {

  datatype Option<+T> = None | Some(value: T)
}
