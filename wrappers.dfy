/** Plain Option and Result types: an optional occupant of a grid cell and the
    outcome of constructing a model. */
module Wrappers {

  datatype Option<+T> = None | Some(value: T)

  datatype Result<+R, +E> = Success(value: R) | Failure(error: E)
}
