/** The Some/None datatype used for values the program may fail to produce:
    an unparsable number, a malformed line, a file that could not be opened. */
module Wrappers {

  datatype Option<+T> = None | Some(value: T)
}
