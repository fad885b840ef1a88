/** A value that may be missing, and a list that may have run out. */
module Wrappers {
  datatype Option<+T> = None | Some(value: T)

  /** What is left of a list after its first element, if it has one. */
  function Later<T>(s: seq<T>): seq<T> { if s == [] then [] else s[1..] }
}
