/** Order-preserving sub-sequences, used to say that filtering keeps the listing order. */
module Seqs {

  /** `sub` is obtained from `s` by deleting elements, keeping the order of those that remain.
      Greedy matching from the front decides this. */
  predicate IsSubsequence<T(==)>(sub: seq<T>, s: seq<T>)
    decreases |s|
  {
    if |sub| == 0 then true
    else if |s| == 0 then false
    else if sub[0] == s[0] then IsSubsequence(sub[1..], s[1..])
    else IsSubsequence(sub, s[1..])
  }

  /** Every element of a sub-sequence occurs in the sequence. */
  lemma {:induction false} SubsequenceMembers<T>(sub: seq<T>, s: seq<T>)
    requires IsSubsequence(sub, s)
    ensures forall x :: x in sub ==> x in s
    decreases |s|
  {
    if |sub| > 0 && |s| > 0 {
      if sub[0] == s[0] {
        SubsequenceMembers(sub[1..], s[1..]);
        forall x | x in sub ensures x in s {
          if x != sub[0] {
            assert x in sub[1..];
          }
        }
      } else {
        SubsequenceMembers(sub, s[1..]);
      }
    }
  }

  /** Putting one more element in front of the sequence keeps a sub-sequence a sub-sequence. */
  lemma {:induction false} SubsequenceSkip<T>(sub: seq<T>, s: seq<T>, x: T)
    requires IsSubsequence(sub, s)
    ensures IsSubsequence(sub, [x] + s)
    decreases |s|, 1
  {
    assert ([x] + s)[1..] == s;
    if |sub| > 0 && sub[0] == x {
      SubsequenceDropHead(sub, s);
    }
  }

  /** Removing the first element of a sub-sequence keeps it a sub-sequence. */
  lemma {:induction false} SubsequenceDropHead<T>(sub: seq<T>, s: seq<T>)
    requires |sub| > 0 && IsSubsequence(sub, s)
    ensures IsSubsequence(sub[1..], s)
    decreases |s|, 0
  {
    assert |s| > 0;
    assert s == [s[0]] + s[1..];
    if sub[0] == s[0] {
      SubsequenceSkip(sub[1..], s[1..], s[0]);
    } else {
      SubsequenceDropHead(sub, s[1..]);
      SubsequenceSkip(sub[1..], s[1..], s[0]);
    }
  }

  /** `s` with every occurrence of `x` removed and the other elements kept in order. */
  function Without<T(==, !new)>(s: seq<T>, x: T): (r: seq<T>)
    ensures IsSubsequence(r, s)
    ensures forall y :: y in r <==> y in s && y != x
    decreases |s|
  {
    if |s| == 0 then []
    else
      var rest := Without(s[1..], x);
      assert s == [s[0]] + s[1..];
      SubsequenceSkip(rest, s[1..], s[0]);
      if s[0] == x then rest
      else
        assert ([s[0]] + rest)[1..] == rest;
        [s[0]] + rest
  }

  /** Every sequence is a sub-sequence of itself. */
  lemma {:induction false} SubsequenceReflexive<T>(s: seq<T>)
    ensures IsSubsequence(s, s)
    decreases |s|
  {
    if |s| > 0 {
      SubsequenceReflexive(s[1..]);
    }
  }
}
