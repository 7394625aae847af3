/** The optional-value datatype used for fields the C program leaves
    uninitialised: `None` means "no value was ever written". */
module Wrappers {

  datatype Option<+T> = None | Some(value: T)
}
