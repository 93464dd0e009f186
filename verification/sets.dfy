/**
 `subset_of?` and `superset_of?` on hashes and on arrays. The Hash pair is
 defined identically in two files of the repository; it is modelled once.
 Ruby's `===` on the value kinds modelled here is `==`.
 */
module Sets {
  import opened Values
  import opened Hashes
  import Sanitation

  const HashSubsetTypeMessage := "Argument of #subset_of? must share the class of the calling object"
  const HashSupersetTypeMessage := "Argument of Hash#superset_of? must be a hash"
  const ArraySubsetTypeMessage := "Argument of Array#subset_of? must be an array"
  const ArraySupersetTypeMessage := "Argument of Array#superset_of? must be an array"

  /**
   The loop of `Hash#subset_of?`: every pair `(k, v)` of `a` has `b[k] === v`.
   Since `b[k]` is nil for an absent key, a pair whose value is nil is matched
   by a hash that lacks its key.
   */
  function EachMatches(a: Hash, b: Hash): (r: bool)
    ensures r <==> forall i :: 0 <= i < |a| ==> Lookup(b, a[i].0) == a[i].1
  {
    if |a| == 0 then true
    else
      var rest := EachMatches(a[1..], b);
      assert forall i :: 1 <= i < |a| ==> a[1..][i - 1] == a[i];
      Lookup(b, a[0].0) == a[0].1 && rest
  }

  /**
   `a.subset_of?(other)`: ArgumentError unless `other` is a Hash; otherwise
   whether every pair of `a` is matched in `other`.
   */
  function HashSubsetOf(a: Hash, other: Value): (r: Result<bool>)
    ensures r.Raise? <==> !other.HashV?
    ensures r.Raise? ==> r.error == ArgumentError(HashSubsetTypeMessage)
    ensures r.Ok? ==> (r.value <==> forall i :: 0 <= i < |a| ==> Lookup(other.entries, a[i].0) == a[i].1)
  {
    if !other.HashV? then Raise(ArgumentError(HashSubsetTypeMessage))
    else Ok(EachMatches(a, other.entries))
  }

  /**
   `a.superset_of?(other)`: ArgumentError unless `other` is a Hash; otherwise
   whether every pair of `other` is matched in `a`.
   */
  function HashSupersetOf(a: Hash, other: Value): (r: Result<bool>)
    ensures r.Raise? <==> !other.HashV?
    ensures r.Raise? ==> r.error == ArgumentError(HashSupersetTypeMessage)
    ensures r.Ok? ==> (r.value <==> forall i :: 0 <= i < |other.entries| ==> Lookup(a, other.entries[i].0) == other.entries[i].1)
  {
    if !other.HashV? then Raise(ArgumentError(HashSupersetTypeMessage))
    else HashSubsetOf(other.entries, HashV(a))
  }

  /** `a.superset_of?(b)` is `b.subset_of?(a)` for every pair of hashes. */
  lemma SupersetMirrorsSubset(a: Hash, b: Hash)
    ensures HashSupersetOf(a, HashV(b)) == HashSubsetOf(b, HashV(a))
  {
  }

  /** `{}` is a subset of every hash. */
  lemma EmptyIsSubset(b: Hash)
    ensures HashSubsetOf([], HashV(b)) == Ok(true)
    ensures HashSupersetOf(b, HashV([])) == Ok(true)
  {
  }

  /** Every hash is a subset of itself. */
  lemma SubsetReflexive(a: Hash)
    requires Valid(a)
    ensures HashSubsetOf(a, HashV(a)) == Ok(true)
  {
  }

  /** A pair bound to nil is matched by a hash that lacks its key, because the absent key looks up nil. */
  lemma NilPairMatchesAbsentKey(k: Value, b: Hash)
    requires !HasKey(b, k)
    ensures HashSubsetOf([(k, Nil)], HashV(b)) == Ok(true)
  {
  }

  /**
   For pairs not bound to nil, being matched is plain containment: `a` is a
   subset of `b` exactly when every pair of `a` is a pair of `b`.
   */
  lemma SubsetIsPairContainment(a: Hash, b: Hash)
    requires Valid(b)
    requires forall i :: 0 <= i < |a| ==> a[i].1 != Nil
    ensures HashSubsetOf(a, HashV(b)) == Ok(forall e :: e in a ==> e in b)
  {
    forall i | 0 <= i < |a|
      ensures Lookup(b, a[i].0) == a[i].1 <==> a[i] in b
    {
      EntryIffLookup(b, a[i].0, a[i].1);
    }
  }

  /** `only` never adds a key or changes a value, so its result is a subset of the receiver. */
  lemma OnlyIsSubset(h: Hash, goodKeys: seq<Value>)
    requires Valid(h)
    ensures HashSubsetOf(Sanitation.Only(h, goodKeys), HashV(h)) == Ok(true)
  {
    var r := Sanitation.Only(h, goodKeys);
    forall i | 0 <= i < |r|
      ensures Lookup(h, r[i].0) == r[i].1
    {
      assert r[i] in r;
      EntryIffLookup(h, r[i].0, r[i].1);
    }
  }

  /** The loop of `Array#subset_of?`: every element of `a` is included in `b`. */
  function EachIncluded(a: seq<Value>, b: seq<Value>): (r: bool)
    ensures r <==> forall i :: 0 <= i < |a| ==> a[i] in b
  {
    if |a| == 0 then true
    else
      var rest := EachIncluded(a[1..], b);
      assert forall i :: 1 <= i < |a| ==> a[1..][i - 1] == a[i];
      a[0] in b && rest
  }

  lemma ElementsIncluded(a: seq<Value>, b: seq<Value>)
    ensures (forall i :: 0 <= i < |a| ==> a[i] in b) <==> (set x | x in a) <= (set x | x in b)
  {
    var sa := set x | x in a;
    var sb := set x | x in b;
    if forall i :: 0 <= i < |a| ==> a[i] in b {
      forall x | x in sa
        ensures x in sb
      {
        var i :| 0 <= i < |a| && a[i] == x;
      }
    }
    if sa <= sb {
      forall i | 0 <= i < |a|
        ensures a[i] in b
      {
        assert a[i] in sa;
        assert a[i] in sb;
      }
    }
  }

  /**
   `a.subset_of?(other)` on an Array: ArgumentError unless `other` is an
   Array; otherwise whether the elements of `a` form a subset of those of
   `other`, ignoring order and multiplicity.
   */
  function ArraySubsetOf(a: seq<Value>, other: Value): (r: Result<bool>)
    ensures r.Raise? <==> !other.Arr?
    ensures r.Raise? ==> r.error == ArgumentError(ArraySubsetTypeMessage)
    ensures r.Ok? ==> (r.value <==> (set x | x in a) <= (set x | x in other.elems))
  {
    if !other.Arr? then Raise(ArgumentError(ArraySubsetTypeMessage))
    else
      ElementsIncluded(a, other.elems);
      Ok(EachIncluded(a, other.elems))
  }

  /**
   `a.superset_of?(other)` on an Array: ArgumentError unless `other` is an
   Array; otherwise whether the elements of `other` all occur in `a`.
   */
  function ArraySupersetOf(a: seq<Value>, other: Value): (r: Result<bool>)
    ensures r.Raise? <==> !other.Arr?
    ensures r.Raise? ==> r.error == ArgumentError(ArraySupersetTypeMessage)
    ensures r.Ok? ==> (r.value <==> (set x | x in other.elems) <= (set x | x in a))
  {
    if !other.Arr? then Raise(ArgumentError(ArraySupersetTypeMessage))
    else ArraySubsetOf(other.elems, Arr(a))
  }

  /** `a.superset_of?(b)` is `b.subset_of?(a)` for every pair of arrays. */
  lemma ArraySupersetMirrorsSubset(a: seq<Value>, b: seq<Value>)
    ensures ArraySupersetOf(a, Arr(b)) == ArraySubsetOf(b, Arr(a))
  {
  }

  /** `[]` is a subset of every array, and every array is a subset of itself. */
  lemma ArraySubsetBasics(a: seq<Value>, b: seq<Value>)
    ensures ArraySubsetOf([], Arr(b)) == Ok(true)
    ensures ArraySubsetOf(a, Arr(a)) == Ok(true)
  {
  }

  /** Only which elements occur matters: reordering or repeating elements on either side changes nothing. */
  lemma ArraySubsetIgnoresOrderAndMultiplicity(a1: seq<Value>, a2: seq<Value>, b1: seq<Value>, b2: seq<Value>)
    requires forall x :: x in a1 <==> x in a2
    requires forall x :: x in b1 <==> x in b2
    ensures ArraySubsetOf(a1, Arr(b1)) == ArraySubsetOf(a2, Arr(b2))
  {
    assert (set x | x in a1) == (set x | x in a2);
    assert (set x | x in b1) == (set x | x in b2);
  }
}
