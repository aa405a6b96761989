/** The absent-or-present value used for request fields, environment settings
    and directory lookups (Python's `None` versus a string). */
module Wrappers {

  datatype Option<+T> = None | Some(value: T)

}
