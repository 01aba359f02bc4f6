/** A value that may be missing: an empty shared_ptr, an empty std::function,
    a slot whose payload never arrived. */
module Wrappers {

  datatype Option<+T> = None | Some(value: T)

}
