/** The optional-value datatype used for "absent" results and for the
    infinite sides of a rectangle. */
module Wrappers {

  datatype Option<+T> = None | Some(value: T)
}
