/** The absent-or-present value that a JavaScript `Map.get` returns:
    `None` stands for `undefined`. */
module Wrappers {

  datatype Option<+T> = None | Some(value: T)
}
