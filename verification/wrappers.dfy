/** Option and Result values used for the script's `None` cell texts and its
    exceptions (which the model turns into error values). */
module Wrappers {

  datatype Option<+T> = None | Some(value: T)

  datatype Result<+T, +E> = Ok(value: T) | Err(error: E)
}
