// What the other modules share: optional values, standing for pointers that may be NULL and
// for failures, and the associativity of concatenation.
module Wrappers {
  datatype Option<+T> = None | Some(value: T)

  lemma Assoc<T>(a: seq<T>, b: seq<T>, c: seq<T>)
    ensures (a + b) + c == a + (b + c)
  {
  }
}
