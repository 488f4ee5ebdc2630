/** The null-or-value result the lottery code returns (`null` in JavaScript). */
module Wrappers {

  datatype Option<+T> = None | Some(value: T)
}
