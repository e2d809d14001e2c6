/** The optional value used wherever `DatabaseTools` and `Globalization` return `undefined` for "nothing". */
module Wrappers {
  datatype Option<+T> = None | Some(value: T)
}
