/**
 `Hash#-`: removes the argument's keys from a copy of the receiver, provided
 the receiver is a superset of the argument.
 */
module Subtraction {
  import opened Values
  import opened Sequences
  import opened Hashes
  import opened Sanitation
  import opened Sets
  import Addition

  const NotSupersetMessage := "Hash can only be subtracted from its superset"

  /**
   `a - other`: the ArgumentError of `superset_of?` when `other` is not a
   Hash; ArgumentError when some pair of `other` is not matched in `a`;
   otherwise `a`'s entries whose key `other` lacks, in `a`'s order.
   */
  function Minus(a: Hash, other: Value): (r: Result<Hash>)
    ensures !other.HashV? ==> r == Raise(ArgumentError(HashSupersetTypeMessage))
    ensures other.HashV? ==>
      (r.Raise? <==> exists i :: 0 <= i < |other.entries| && Lookup(a, other.entries[i].0) != other.entries[i].1)
    ensures other.HashV? && r.Raise? ==> r.error == ArgumentError(NotSupersetMessage)
    ensures r.Ok? ==> forall e :: e in r.value <==> e in a && !HasKey(other.entries, e.0)
    ensures r.Ok? ==> IsSubsequence(r.value, a)
    ensures r.Ok? && Valid(a) ==> Valid(r.value)
  {
    match HashSupersetOf(a, other)
    case Raise(e) => Raise(e)
    case Ok(isSuperset) =>
      if isSuperset then Ok(Clean(a, Keys(other.entries)))
      else Raise(ArgumentError(NotSupersetMessage))
  }

  /**
   A difference has no key of the argument, and it is a sub-map of the
   receiver: every pair it keeps is a pair of `a`.
   */
  lemma MinusIsSubMap(a: Hash, b: Hash)
    requires Valid(a)
    requires Minus(a, HashV(b)).Ok?
    ensures forall k :: HasKey(b, k) ==> !HasKey(Minus(a, HashV(b)).value, k)
    ensures HashSubsetOf(Minus(a, HashV(b)).value, HashV(a)) == Ok(true)
  {
    var r := Minus(a, HashV(b)).value;
    forall k | HasKey(b, k)
      ensures !HasKey(r, k)
    {
      CleanLookup(a, Keys(b), k);
    }
    forall i | 0 <= i < |r|
      ensures Lookup(a, r[i].0) == r[i].1
    {
      assert r[i] in r;
      EntryIffLookup(a, r[i].0, r[i].1);
    }
  }

  /** `a - a` is `{}`. */
  lemma MinusSelf(a: Hash)
    requires Valid(a)
    ensures Minus(a, HashV(a)) == Ok([])
  {
    AllKeysPresent(a);
    CleanAllKeys(a, Keys(a));
  }

  /** Two valid hashes with no shared key concatenate into a valid hash. */
  lemma AppendValid(a: Hash, b: Hash)
    requires Valid(a) && Valid(b)
    requires forall i :: 0 <= i < |b| ==> !HasKey(a, b[i].0)
    ensures Valid(a + b)
  {
    AllKeysPresent(a);
  }

  /** A hash is a superset of any hash appended to it without shared keys. */
  lemma SupersetOfAppended(a: Hash, b: Hash)
    requires Valid(a) && Valid(b)
    requires forall i :: 0 <= i < |b| ==> !HasKey(a, b[i].0)
    ensures HashSupersetOf(a + b, HashV(b)) == Ok(true)
  {
    AppendValid(a, b);
    var s := a + b;
    forall i | 0 <= i < |b|
      ensures Lookup(s, b[i].0) == b[i].1
    {
      assert s[|a| + i] == b[i];
    }
  }

  /** Removing `b`'s keys from `a + b` gives back `a` when no key is shared. */
  lemma CleanAppendedKeys(a: Hash, b: Hash)
    requires forall i :: 0 <= i < |b| ==> !HasKey(a, b[i].0)
    ensures Clean(a + b, Keys(b)) == a
  {
    CleanAppend(a, b, Keys(b));
    forall i | 0 <= i < |a|
      ensures a[i].0 !in Keys(b)
    {
      if a[i].0 in Keys(b) {
        var j :| 0 <= j < |b| && Keys(b)[j] == a[i].0;
        HasKeyAt(a, i);
      }
    }
    CleanAbsentKeys(a, Keys(b));
    AllKeysPresent(b);
    CleanAllKeys(b, Keys(b));
  }

  /** With no shared key, `(a + b) - b` is `a`. */
  lemma PlusMinusRoundTrip(a: Hash, b: Hash)
    requires Valid(a) && Valid(b)
    requires forall i :: 0 <= i < |b| ==> !HasKey(a, b[i].0)
    ensures Addition.Plus(a, HashV(b)).Ok?
    ensures Minus(Addition.Plus(a, HashV(b)).value, HashV(b)) == Ok(a)
  {
    Addition.PlusDisjoint(a, b);
    SupersetOfAppended(a, b);
    CleanAppendedKeys(a, b);
  }

  /** `{foo: 'bar', baz: 'qux'} + {baz: 'zap'}` is `{foo: 'bar', baz: 'zap'}`. */
  lemma MergeExample()
    ensures Addition.Plus([(Sym("foo"), Str("bar")), (Sym("baz"), Str("qux"))], HashV([(Sym("baz"), Str("zap"))]))
      == Ok([(Sym("foo"), Str("bar")), (Sym("baz"), Str("zap"))])
  {
    var a: Hash := [(Sym("foo"), Str("bar")), (Sym("baz"), Str("qux"))];
    assert HasKey(a, Sym("baz")) by { HasKeyAt(a, 1); }
    assert Store(a, Sym("baz"), Str("zap")) == [(Sym("foo"), Str("bar")), (Sym("baz"), Str("zap"))];
  }

  /** `{:foo => 'bar', :baz => :qux} - {:baz => :qux}` is `{:foo => 'bar'}`. */
  lemma SubtractExample()
    ensures Minus([(Sym("foo"), Str("bar")), (Sym("baz"), Sym("qux"))], HashV([(Sym("baz"), Sym("qux"))]))
      == Ok([(Sym("foo"), Str("bar"))])
  {
    var m: Hash := [(Sym("foo"), Str("bar")), (Sym("baz"), Sym("qux"))];
    assert Keys([(Sym("baz"), Sym("qux"))]) == [Sym("baz")];
    assert Lookup(m, Sym("baz")) == Sym("qux") by { HasKeyAt(m, 1); }
    assert HashSupersetOf(m, HashV([(Sym("baz"), Sym("qux"))])) == Ok(true);
    assert m[1..][1..] == [];
    assert Clean(m[1..], [Sym("baz")]) == [];
    assert Clean(m, [Sym("baz")]) == [(Sym("foo"), Str("bar"))];
  }

  /**
   `{:foo => 'bar'} - {:norf => :raboo}` raises ArgumentError: the argument is
   not a subset, so the superset check fails before anything is removed.
   */
  lemma SubtractNonSubsetExample()
    ensures Minus([(Sym("foo"), Str("bar"))], HashV([(Sym("norf"), Sym("raboo"))])) == Raise(ArgumentError(NotSupersetMessage))
  {
    assert !HasKey([(Sym("foo"), Str("bar"))], Sym("norf")) by {
      assert Keys([(Sym("foo"), Str("bar"))]) == [Sym("foo")];
    }
  }
}
