/** Bytes, and the one law of concatenation that needs saying. */
module Bytes {

  type Byte = x: nat | x < 256

  lemma Assoc<T>(a: seq<T>, b: seq<T>, c: seq<T>)
    ensures a + (b + c) == a + b + c
  {
  }
}
