/** The optional-value datatype used for lookups that may find nothing
    (a missing attendance entry, an unknown subject, the idle click state). */
module Wrappers {

  datatype Option<+T> = None | Some(value: T)

}
