/** Optional values, used for the log file (absent or present) and for decoding rows. */
module Wrappers {

  datatype Option<+T> = None | Some(value: T)

}
