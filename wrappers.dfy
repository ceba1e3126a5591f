/** A value that may be absent: JavaScript's `undefined` for optional
    arguments, and `NaN` for a date that does not parse. */
module Wrappers {

  datatype Option<+T> = None | Some(value: T)
}
