/** The optional value, standing for nil records, nil maps and nil errors. */
module Wrappers {

  datatype Option<+T> = None | Some(value: T)
}
