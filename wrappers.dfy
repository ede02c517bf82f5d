/** The usual optional value, standing for pandas' NaT/NaN where the source yields "no value". */
module Wrappers {
  datatype Option<+T> = None | Some(value: T)
}
