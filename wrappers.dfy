/** The absent sentinel of the library, made explicit: a lookup either finds a value or finds none. */
module Wrappers {

  datatype Option<+T> = None | Some(value: T)
}
