/** The optional-value datatype used wherever the source signals absence
    through a boolean result, a sentinel index or an untouched out-parameter. */
module Wrappers {

  datatype Option<+T> = None | Some(value: T)
}
