/** The optional value used for "N/A" table cells and for numbers that do not parse. */
module Wrappers {

  datatype Option<+T> = None | Some(value: T)
}
