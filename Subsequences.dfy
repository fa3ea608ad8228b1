/** Order-preserving subsequences of sequences, used to say that the merged
    ABI keeps the fragments it selects verbatim and in their original order. */
module Subsequences {

  /** `r` can be obtained from `s` by deleting elements, without reordering
      or changing the ones that stay. */
  ghost predicate IsSubsequence<T>(r: seq<T>, s: seq<T>)
    decreases |s|
  {
    if r == [] then true
    else if s == [] then false
    else
      (r[|r| - 1] == s[|s| - 1] && IsSubsequence(r[..|r| - 1], s[..|s| - 1]))
      || IsSubsequence(r, s[..|s| - 1])
  }

  /** Every sequence is a subsequence of itself. */
  lemma {:induction false} SubsequenceReflexive<T>(s: seq<T>)
    ensures IsSubsequence(s, s)
    decreases |s|
  {
    if s != [] {
      SubsequenceReflexive(s[..|s| - 1]);
    }
  }

  /** Appending to the larger sequence keeps a subsequence a subsequence. */
  lemma {:induction false} SubsequenceExtend<T>(r: seq<T>, s: seq<T>, t: seq<T>)
    requires IsSubsequence(r, s)
    ensures IsSubsequence(r, s + t)
    decreases |t|
  {
    if r != [] && t != [] {
      assert (s + t)[..|s + t| - 1] == s + t[..|t| - 1];
      SubsequenceExtend(r, s, t[..|t| - 1]);
    } else if r != [] {
      assert s + t == s;
    }
  }

  /** Subsequences of the two halves concatenate to a subsequence of the whole. */
  lemma {:induction false} SubsequenceConcat<T>(a: seq<T>, b: seq<T>, c: seq<T>, d: seq<T>)
    requires IsSubsequence(a, b) && IsSubsequence(c, d)
    ensures IsSubsequence(a + c, b + d)
    decreases |d|
  {
    if c == [] {
      assert a + c == a;
      SubsequenceExtend(a, b, d);
    } else {
      assert d != [];
      var ac, bd := a + c, b + d;
      assert ac[..|ac| - 1] == a + c[..|c| - 1];
      assert bd[..|bd| - 1] == b + d[..|d| - 1];
      if c[|c| - 1] == d[|d| - 1] && IsSubsequence(c[..|c| - 1], d[..|d| - 1]) {
        SubsequenceConcat(a, b, c[..|c| - 1], d[..|d| - 1]);
      } else {
        SubsequenceConcat(a, b, c, d[..|d| - 1]);
      }
    }
  }

  /** A subsequence is never longer than the sequence it is taken from. */
  lemma {:induction false} SubsequenceLength<T>(r: seq<T>, s: seq<T>)
    requires IsSubsequence(r, s)
    ensures |r| <= |s|
    decreases |s|
  {
    if r != [] {
      if r[|r| - 1] == s[|s| - 1] && IsSubsequence(r[..|r| - 1], s[..|s| - 1]) {
        SubsequenceLength(r[..|r| - 1], s[..|s| - 1]);
      } else {
        SubsequenceLength(r, s[..|s| - 1]);
      }
    }
  }

  /** Every element of a subsequence is an element of the original sequence. */
  lemma {:induction false} SubsequenceMembers<T>(r: seq<T>, s: seq<T>)
    requires IsSubsequence(r, s)
    ensures forall x :: x in r ==> x in s
    decreases |s|
  {
    if r != [] {
      var sp := s[..|s| - 1];
      if r[|r| - 1] == s[|s| - 1] && IsSubsequence(r[..|r| - 1], sp) {
        SubsequenceMembers(r[..|r| - 1], sp);
        assert r == r[..|r| - 1] + [s[|s| - 1]];
      } else {
        SubsequenceMembers(r, sp);
      }
      assert s == sp + [s[|s| - 1]];
    }
  }
}
