/** The optional value shared by the parser, the configuration store and the
    round reports. */
module Wrappers {

  datatype Option<T> = None | Some(value: T)
}
