/** The optional result shared by the list readers and the generator. */
module Wrappers {

  datatype Option<T> = None | Some(value: T)
}
