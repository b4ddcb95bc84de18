/** The optional value used for JavaScript's `undefined`: a missing item, a
    callback that returned nothing, a card whose spring is left alone. */
module Wrappers {
  datatype Option<+T> = None | Some(value: T)
}
