// Option and Result values shared by every module of the model. A Go
// function returning `(T, error)` becomes a `Result<T>`; a nil reference
// becomes `None`.
module Wrappers {
  datatype Option<T> = None | Some(value: T)

  datatype Result<T> = Ok(value: T) | Err(msg: string)

  /** A non-empty set has an element; the one returned witnesses a later `:|`. */
  lemma SomeElement<T>(s: set<T>) returns (t: T)
    requires s != {}
    ensures t in s
  {
    t :| t in s;
  }
}
