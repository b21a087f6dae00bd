/** Absent-or-value results: the registry reports a missing room or player
    by returning `undefined`/`null`, modelled here as `None`. */
module Wrappers {

  datatype Option<+T> = None | Some(value: T)
}
