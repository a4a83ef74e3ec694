/** The optional value used for JavaScript's falsy/absent arguments and for Map.get's `undefined`. */
module Wrappers {

  datatype Option<+T> = None | Some(value: T)

}
