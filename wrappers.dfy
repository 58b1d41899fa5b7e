/** An optional value: a request field that may be absent, an upload that may fail. */
module Wrappers {

  datatype Option<+T> = None | Some(value: T)
}
