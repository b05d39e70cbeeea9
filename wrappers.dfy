/** The absence marker used throughout the model: a missing cell, an unset
    sheet selection, an empty working table. */
module Wrappers {

  datatype Option<+T> = None | Some(value: T)
}
