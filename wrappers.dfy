/** Option type for values that may be absent (a file that could not be
    decoded, a README that was never found). */
module Wrappers {
  datatype Option<+T> = None | Some(value: T)
}
