/** Small facts about sequence concatenation that the proofs of the other modules cite by name. */
module Seqs {

  /** The first element and the rest of `a + [x] + b` for a non-empty `a`. */
  lemma SnocTail<T>(a: seq<T>, x: T, b: seq<T>)
    requires |a| > 0
    ensures (a + [x] + b)[0] == a[0] && (a + [x] + b)[1..] == a[1..] + [x] + b
  {
  }

  lemma HeadTailAppend<T>(r: seq<T>, rb: seq<T>)
    requires |r| > 0
    ensures (r + rb)[0] == r[0] && (r + rb)[1..] == r[1..] + rb
  {
  }

  lemma Assoc3<T>(a: seq<T>, b: seq<T>, c: seq<T>)
    ensures a + b + c == a + (b + c)
  {
  }

  lemma Assoc4<T>(a: seq<T>, b: seq<T>, c: seq<T>, d: seq<T>)
    ensures a + b + c + d == a + (b + c + d)
  {
  }

  lemma NilSides<T>(s: seq<T>)
    ensures [] + s == s && s + [] == s
  {
  }

  /** Indexing a concatenation: the first part, then the second shifted by its length. */
  lemma AppendIndex<T>(a: seq<T>, b: seq<T>)
    ensures |a + b| == |a| + |b|
    ensures forall i :: 0 <= i < |a| ==> (a + b)[i] == a[i]
    ensures forall i :: |a| <= i < |a| + |b| ==> (a + b)[i] == b[i - |a|]
  {
  }

  lemma ConsAssoc<T>(x: T, r: seq<T>, rb: seq<T>)
    ensures [x] + (r + rb) == ([x] + r) + rb
  {
  }
}
