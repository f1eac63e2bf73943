/** Identities of sequence concatenation and indexing. Dafny knows each of
    them, but inside a large proof it does not always find the regrouping it
    needs; the proofs elsewhere call these lemmas to name that step. */
module Seqs {

  lemma Assoc<T>(x: seq<T>, y: seq<T>, z: seq<T>)
    ensures x + (y + z) == x + y + z
  {
  }

  lemma Regroup<T>(a: seq<T>, b: seq<T>, c: seq<T>, d: seq<T>)
    ensures a + (b + c) + d == a + b + c + d
  {
  }

  lemma EmptyFront<T>(xs: seq<T>)
    ensures [] + xs == xs
  {
  }

  lemma EmptyBack<T>(xs: seq<T>)
    ensures xs + [] == xs
  {
  }

  lemma ConsSnoc<T>(x: T, s: seq<T>, y: T)
    ensures [x] + (s + [y]) == [x] + s + [y]
  {
  }

  /** Position `j > 0` of a sequence with one element put in front is
      position `j - 1` of the rest. */
  lemma ConsAt<T>(x: T, rest: seq<T>, j: int)
    requires 1 <= j <= |rest|
    ensures ([x] + rest)[j] == rest[j - 1]
  {
  }

  /** A slice of the right-hand part, read in the concatenation. */
  lemma SliceAfter<T>(x: seq<T>, y: seq<T>, a: nat, b: nat)
    requires a <= b <= |y|
    ensures (x + y)[|x| + a..|x| + b] == y[a..b]
  {
  }
}
