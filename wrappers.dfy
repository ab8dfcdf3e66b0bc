/** The optional-value type used for results that can be absent or fail. */
module Wrappers {

  datatype Option<+T> = None | Some(value: T)

}
