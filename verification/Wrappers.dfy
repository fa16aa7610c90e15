module Wrappers {
  datatype Option<T> = None | Some(value: T)

  // What a reader returns: the value read and the rest of the input.
  datatype Parsed<T, S> = Failed | Read(value: T, rest: seq<S>)
}
