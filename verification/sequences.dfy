/** Order-preserving selection from a sequence. */
module Sequences {

  /** `a` can be obtained from `b` by deleting elements, keeping the rest in order. */
  ghost predicate IsSubsequence<T>(a: seq<T>, b: seq<T>)
    decreases |b|
  {
    if |b| == 0 then |a| == 0
    else (|a| > 0 && a[0] == b[0] && IsSubsequence(a[1..], b[1..])) || IsSubsequence(a, b[1..])
  }

  /** A subsequence of a tail stays one when the head is put back, kept or dropped. */
  lemma SubsequenceOfTail<T>(a: seq<T>, b: seq<T>)
    requires |b| > 0 && IsSubsequence(a, b[1..])
    ensures IsSubsequence(a, b)
    ensures IsSubsequence([b[0]] + a, b)
  {
    assert ([b[0]] + a)[1..] == a;
  }

  /** Every sequence is a subsequence of itself. */
  lemma {:induction false} SubsequenceOfSelf<T>(a: seq<T>)
    ensures IsSubsequence(a, a)
    decreases |a|
  {
    if |a| > 0 {
      SubsequenceOfSelf(a[1..]);
    }
  }

  /** Moving the head of `p` onto the end of `d` leaves the concatenation unchanged. */
  lemma AppendHead<T>(d: seq<T>, p: seq<T>)
    requires |p| > 0
    ensures (d + [p[0]]) + p[1..] == d + p
  {
    assert p == [p[0]] + p[1..];
  }

  /** Extending a prefix of `b` by its next element. */
  lemma AppendNext<T>(a: seq<T>, b: seq<T>, m: int)
    requires 0 <= m < |b|
    ensures (a + b[..m]) + [b[m]] == a + b[..m + 1]
  {
    assert b[..m + 1] == b[..m] + [b[m]];
  }

  /** Sending one element to one of two sides adds it exactly once to the pair. */
  lemma SendToOneSide<T>(x: T, a: seq<T>, b: seq<T>, right: bool)
    ensures |(if right then [] else [x]) + a| + |(if right then [x] else []) + b| == 1 + |a| + |b|
    ensures multiset((if right then [] else [x]) + a) + multiset((if right then [x] else []) + b)
      == multiset{x} + multiset(a) + multiset(b)
  {
  }

  /** Removing one element leaves a subsequence. */
  lemma {:induction false} DropOne<T>(b: seq<T>, i: int)
    requires 0 <= i < |b|
    ensures IsSubsequence(b[..i] + b[i + 1..], b)
    decreases i
  {
    if i == 0 {
      assert b[..0] + b[1..] == b[1..];
      SubsequenceOfSelf(b[1..]);
    } else {
      DropOne(b[1..], i - 1);
      var a := b[..i] + b[i + 1..];
      assert a[0] == b[0];
      assert a[1..] == b[1..][..i - 1] + b[1..][i..];
    }
  }

  /** Regrouping a concatenation around one element. */
  lemma AppendMiddle<T>(a: seq<T>, x: T, b: seq<T>)
    ensures (a + [x]) + b == a + ([x] + b)
  {
  }

  /** An element of a non-empty sequence is its head or in its tail. */
  lemma InHeadOrTail<T>(s: seq<T>, x: T)
    requires |s| > 0
    ensures x in s <==> x == s[0] || x in s[1..]
  {
    assert s == [s[0]] + s[1..];
  }
}
