/** The subsequence relation, used to say that a filter keeps the order of its input. */
module Sequences {

  /** `r` can be obtained from `s` by deleting elements (matched greedily from the end). */
  predicate IsSubsequence<T(==)>(r: seq<T>, s: seq<T>)
    decreases |s|
  {
    if r == [] then true
    else if s == [] then false
    else if r[|r| - 1] == s[|s| - 1] then IsSubsequence(r[..|r| - 1], s[..|s| - 1])
    else IsSubsequence(r, s[..|s| - 1])
  }

  /** An element appended to the larger sequence only. */
  lemma {:induction false} SubsequenceAppendRight<T>(r: seq<T>, s: seq<T>, x: T)
    requires IsSubsequence(r, s)
    ensures IsSubsequence(r, s + [x])
    decreases |s|, 1
  {
    assert (s + [x])[..|s|] == s;
    if r != [] && r[|r| - 1] == x {
      SubsequenceDropLast(r, s);
    }
  }

  /** Dropping the last element keeps a subsequence. */
  lemma {:induction false} SubsequenceDropLast<T>(r: seq<T>, s: seq<T>)
    requires r != [] && IsSubsequence(r, s)
    ensures IsSubsequence(r[..|r| - 1], s)
    decreases |s|, 0
  {
    var s', y := s[..|s| - 1], s[|s| - 1];
    assert s == s' + [y];
    if r[|r| - 1] == y {
      SubsequenceAppendRight(r[..|r| - 1], s', y);
    } else {
      SubsequenceDropLast(r, s');
      SubsequenceAppendRight(r[..|r| - 1], s', y);
    }
  }

  /** The same element appended to both sides. */
  lemma {:induction false} SubsequenceAppendBoth<T>(r: seq<T>, s: seq<T>, x: T)
    requires IsSubsequence(r, s)
    ensures IsSubsequence(r + [x], s + [x])
  {
    assert (r + [x])[..|r|] == r;
    assert (s + [x])[..|s|] == s;
  }

  /** No element occurs twice. */
  predicate Distinct<T(==)>(s: seq<T>) {
    forall a, b :: 0 <= a < b < |s| ==> s[a] != s[b]
  }

  /** Every element of a subsequence is an element of the whole. */
  lemma {:induction false} SubsequenceElements<T>(r: seq<T>, s: seq<T>, x: T)
    requires IsSubsequence(r, s) && x in r
    ensures x in s
    decreases |s|
  {
    var s' := s[..|s| - 1];
    assert s == s' + [s[|s| - 1]];
    if r[|r| - 1] == s[|s| - 1] {
      var r' := r[..|r| - 1];
      assert r == r' + [r[|r| - 1]];
      if x in r' {
        SubsequenceElements(r', s', x);
      }
    } else {
      SubsequenceElements(r, s', x);
    }
  }

  /** A subsequence of a sequence without repetitions has none either. */
  lemma {:induction false} SubsequenceDistinct<T>(r: seq<T>, s: seq<T>)
    requires IsSubsequence(r, s) && Distinct(s)
    ensures Distinct(r)
    decreases |s|
  {
    if r != [] {
      var s', y := s[..|s| - 1], s[|s| - 1];
      assert s == s' + [y];
      assert Distinct(s');
      if r[|r| - 1] == y {
        var r' := r[..|r| - 1];
        assert r == r' + [y];
        SubsequenceDistinct(r', s');
        if y in r' {
          SubsequenceElements(r', s', y);
          assert false;
        }
      } else {
        SubsequenceDistinct(r, s');
      }
    }
  }

  /** Dropping the first element commutes with splitting off the last one. */
  lemma DropFirstOfSnoc<T>(s: seq<T>)
    requires |s| >= 2
    ensures s[1..] == s[..|s| - 1][1..] + [s[|s| - 1]]
  {
    assert s[..|s| - 1][1..] == s[1..|s| - 1];
  }
}
