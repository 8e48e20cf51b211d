/** An optional value, used for results the browser may report as absent (null). */
module Wrappers {

  datatype Option<+T> = None | Some(value: T)
}
