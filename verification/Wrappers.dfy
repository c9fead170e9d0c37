/** What several modules need. */
module Wrappers {
  datatype Option<T> = None | Some(value: T)

  /** Concatenation is associative, said where the verifier needs to hear it. */
  lemma Assoc<T>(a: seq<T>, b: seq<T>, c: seq<T>)
    ensures a + b + c == a + (b + c)
  {
  }
}
