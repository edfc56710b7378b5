/** The Option type used for the operations that raise a lookup error in the script
    (a missing dictionary key) or an overflow error (a value outside a fixed-width
    integer type). */
module Wrappers {
  datatype Option<+T> = None | Some(value: T)
}
