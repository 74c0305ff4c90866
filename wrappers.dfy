// Optional values: Swift's `T?`; and two facts about joining sequences
// that proofs over long contexts state once instead of re-deriving.
module Wrappers {
  datatype Option<T> = None | Some(value: T)

  lemma PrependEmpty<T>(s: seq<T>)
    ensures [] + s == s
  {
  }

  lemma AppendAssoc<T>(a: seq<T>, b: seq<T>, c: seq<T>)
    ensures (a + b) + c == a + (b + c)
  {
  }
}
