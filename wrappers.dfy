/** Option, for results that may be absent (a nil net.IP, a frame that does not parse). */
module Wrappers {
  datatype Option<+T> = None | Some(value: T)
}
