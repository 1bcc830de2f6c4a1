/** Facts about sequences that every other module shares.

    Concatenation is associative, and taking or dropping parts of a concatenation gives back its parts.

    Each is stated once here, on sequences of anything, and called by name where strings, bytes, tokens or
    requests are put together, so that no proof has to find the right grouping of a long concatenation by
    itself.

    Nothing in this module knows about the libraries. */
module Sequences {

  lemma Assoc<T>(a: seq<T>, b: seq<T>, c: seq<T>)
    ensures a + b + c == a + (b + c)
  {
  }

  lemma EmptyLeft<T>(a: seq<T>)
    ensures [] + a == a
  {
  }

  lemma DropLeft<T>(a: seq<T>, b: seq<T>)
    ensures (a + b)[|a|..] == b
    ensures a <= a + b
  {
  }

  lemma SliceOfSlice<T>(s: seq<T>, a: nat, b: nat, c: nat, d: nat)
    requires a <= b <= |s| && c <= d <= b - a
    ensures s[a..b][c..d] == s[a + c..a + d]
  {
    var x, y := s[a..b][c..d], s[a + c..a + d];
    assert |x| == |y|;
    forall k | 0 <= k < |x|
      ensures x[k] == y[k]
    {
      assert x[k] == s[a..b][c + k] == s[a + c + k];
    }
  }

  predicate NoDup<T(==)>(s: seq<T>) {
    forall i, j :: 0 <= i < j < |s| ==> s[i] != s[j]
  }
}
