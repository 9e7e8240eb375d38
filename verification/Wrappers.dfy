/** Results shared by every module of the model. */
module Wrappers {

  datatype Option<+T> = None | Some(value: T)

  datatype Result<+T, +E> = Ok(value: T) | Err(error: E)

  /** An empty string counts as none, as in a truth test. */
  function NonEmpty(s: Option<string>): Option<string> {
    if s == Some("") then None else s
  }
}
