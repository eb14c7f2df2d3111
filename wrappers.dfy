/** The optional value returned where the scripts return `None` or raise `queue.Empty`. */
module Wrappers {

  datatype Option<+T> = None | Some(value: T)
}
