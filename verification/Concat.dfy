/** Regrouping of concatenations, kept apart so that proofs about texts need not reason about indices. */
module Concat {
  lemma Assoc<T>(a: seq<T>, b: seq<T>, c: seq<T>)
    ensures a + b + c == a + (b + c)
  {
  }

  /** A text split step by step is the concatenation of its pieces. */
  lemma Pieces4<T>(s: seq<T>, a: seq<T>, s1: seq<T>, b: seq<T>,
    s2: seq<T>, c: seq<T>, s3: seq<T>, d: seq<T>, rest: seq<T>)
    requires s == a + s1 && s1 == b + s2 && s2 == c + s3 && s3 == d + rest
    ensures s == a + b + c + d + rest
  {
    Assoc(a, b, s2);
    Assoc(a + b, c, s3);
    Assoc(a + b + c, d, rest);
  }

  lemma Uncons<T>(s: seq<T>)
    requires s != []
    ensures s == [s[0]] + s[1..]
  {
  }

  lemma Tail<T>(first: T, b: seq<T>, c: seq<T>)
    ensures [first] + b + c == [first] + (b + c)
    ensures ([first] + b + c)[1..] == b + c
  {
    Assoc([first], b, c);
  }
}
