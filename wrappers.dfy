/** The optional value used for every cell that pandas may hold as NaN. */
module Wrappers {

  datatype Option<+T> = None | Some(value: T)
}
