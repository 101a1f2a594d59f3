/** `Option` stands for Swift's optionals and `Result` for a `throws`
    function's outcome. */
module Wrappers {

  datatype Option<+T> = None | Some(value: T)

  /** `Ok` is a normal return, `Err` a thrown error. */
  datatype Result<+R, +E> = Ok(value: R) | Err(error: E)
}
