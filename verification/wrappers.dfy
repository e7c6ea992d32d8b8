/** The optional value used for regular-expression matches that may fail
    (a JavaScript `match` returning `null`) and for absent indices. */
module Wrappers {

  datatype Option<+T> = None | Some(value: T)
}
