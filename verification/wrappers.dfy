/** Helper types shared by the model. */
module Wrappers {

  /** An optional cause: what inspecting an error for a category it may not carry returns. */
  datatype Option<+T> = None | Some(value: T)
}
