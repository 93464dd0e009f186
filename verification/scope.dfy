/**
 `Array#scope` and `Array#where_not` on an array of hashes: the hashes whose
 value at a key is, or is not, among given values. A hash that lacks the key
 has the value nil there.
 */
module Scoping {
  import opened Values
  import opened Sequences
  import opened Hashes

  /** `hash[key].in?(values)`. */
  predicate Matches(h: Hash, key: Value, values: seq<Value>)
    ensures !HasKey(h, key) ==> (Matches(h, key, values) <==> Nil in values)
    ensures Valid(h) ==> forall i :: 0 <= i < |h| && h[i].0 == key ==> (Matches(h, key, values) <==> h[i].1 in values)
  {
    Lookup(h, key) in values
  }

  /** One step of a selection: keeping or dropping the first hash in front of the selected rest. */
  lemma SelectStep(a: seq<Hash>, rest: seq<Hash>, keep: bool)
    requires |a| > 0
    requires IsSubsequence(rest, a[1..])
    ensures IsSubsequence((if keep then [a[0]] else []) + rest, a)
    ensures multiset(a) == multiset{a[0]} + multiset(a[1..])
  {
    SubsequenceOfTail(rest, a);
    assert ([] + rest) == rest;
    assert a == [a[0]] + a[1..];
  }

  /**
   `array.scope(key, *values)`: the hashes whose value at `key` is one of
   `values`, each as often as in `array`, in their original order.
   */
  function Scope(a: seq<Hash>, key: Value, values: seq<Value>): (r: seq<Hash>)
    ensures IsSubsequence(r, a)
    ensures forall h :: multiset(r)[h] == if Matches(h, key, values) then multiset(a)[h] else 0
  {
    if |a| == 0 then []
    else
      var rest := Scope(a[1..], key, values);
      var keep := Matches(a[0], key, values);
      SelectStep(a, rest, keep);
      (if keep then [a[0]] else []) + rest
  }

  /**
   `array.where_not(key, *values)`: the hashes whose value at `key` is none
   of `values`, each as often as in `array`, in their original order.
   */
  function WhereNot(a: seq<Hash>, key: Value, values: seq<Value>): (r: seq<Hash>)
    ensures IsSubsequence(r, a)
    ensures forall h :: multiset(r)[h] == if Matches(h, key, values) then 0 else multiset(a)[h]
  {
    if |a| == 0 then []
    else
      var rest := WhereNot(a[1..], key, values);
      var keep := !Matches(a[0], key, values);
      SelectStep(a, rest, keep);
      (if keep then [a[0]] else []) + rest
  }

  /** `where_not` is the inverse of `scope`: together they split the array, hash for hash. */
  lemma ScopePartition(a: seq<Hash>, key: Value, values: seq<Value>)
    ensures multiset(Scope(a, key, values)) + multiset(WhereNot(a, key, values)) == multiset(a)
    ensures |Scope(a, key, values)| + |WhereNot(a, key, values)| == |a|
  {
    var s := multiset(Scope(a, key, values));
    var w := multiset(WhereNot(a, key, values));
    assert forall h :: (s + w)[h] == multiset(a)[h];
    assert s + w == multiset(a);
    assert |s + w| == |s| + |w|;
  }

  /** A hash in the scope that lacks the key can only be there because nil is one of the values. */
  lemma ScopeMissingKey(a: seq<Hash>, key: Value, values: seq<Value>, h: Hash)
    requires h in a && !HasKey(h, key)
    ensures h in Scope(a, key, values) <==> Nil in values
    ensures h in WhereNot(a, key, values) <==> Nil !in values
  {
    assert multiset(a)[h] > 0;
    assert h in Scope(a, key, values) <==> multiset(Scope(a, key, values))[h] > 0;
    assert h in WhereNot(a, key, values) <==> multiset(WhereNot(a, key, values))[h] > 0;
  }

  /** With no values, `scope` selects nothing and `where_not` keeps everything. */
  lemma ScopeNoValues(a: seq<Hash>, key: Value)
    ensures Scope(a, key, []) == []
    ensures WhereNot(a, key, []) == a
  {
    ScopeNothing(a, key);
    WhereNotEverything(a, key);
  }

  /** With no values nothing matches, so the scope is empty. */
  lemma ScopeNothing(a: seq<Hash>, key: Value)
    ensures Scope(a, key, []) == []
  {
    assert multiset(Scope(a, key, [])) == multiset{};
  }

  /** With no values no hash matches, so `where_not` keeps the whole array. */
  lemma {:induction false} WhereNotEverything(a: seq<Hash>, key: Value)
    ensures WhereNot(a, key, []) == a
  {
    if |a| > 0 {
      WhereNotEverything(a[1..], key);
      KeepsUnmatched(a, key);
      assert a == [a[0]] + a[1..];
    }
  }

  /** A first hash that matches none of the values stays in front of the rest. */
  lemma KeepsUnmatched(a: seq<Hash>, key: Value)
    requires |a| > 0
    ensures WhereNot(a, key, []) == [a[0]] + WhereNot(a[1..], key, [])
  {
    assert !Matches(a[0], key, []);
  }

  /** Narrowing a scope again by the same condition changes nothing. */
  lemma {:induction false} ScopeIdempotent(a: seq<Hash>, key: Value, values: seq<Value>)
    ensures Scope(Scope(a, key, values), key, values) == Scope(a, key, values)
  {
    if |a| > 0 {
      var s1 := Scope(a[1..], key, values);
      ScopeIdempotent(a[1..], key, values);
      if Matches(a[0], key, values) {
        var s := [a[0]] + s1;
        assert Scope(a, key, values) == s;
        assert s[0] == a[0] && s[1..] == s1;
        assert Scope(s, key, values) == [a[0]] + Scope(s1, key, values);
      } else {
        assert Scope(a, key, values) == [] + s1 == s1;
      }
    }
  }
}
