/** The Some/None datatype used wherever the program has "no match" or "absent". */
module Wrappers {

  datatype Option<+T> = None | Some(value: T)
}
