/** The absent-or-present wrapper used for NULL pointers and optional results. */
module Opt {
  datatype Option<+T> = None | Some(value: T)
}
