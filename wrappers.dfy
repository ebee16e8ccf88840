/** The absent-or-present value that the feature locator returns. */
module Wrappers {

  datatype Option<+T> = None | Some(value: T)
}
