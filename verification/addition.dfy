/**
 `Hash#+`: a copy of the receiver with every pair the argument yields stored
 on top. There is no type check: a Hash yields its pairs, an Array yields its
 elements, and any other argument has no `each`.
 */
module Addition {
  import opened Values
  import opened Sequences
  import opened Hashes

  /**
   How a block with parameters `|key, value|` receives one element yielded by
   `Array#each`: an array element is spread over the two parameters (nil where
   it is too short), any other element is the key and the value is nil.
   */
  function BlockPair(e: Value): (p: Entry)
    ensures e.Arr? && |e.elems| >= 2 ==> p == (e.elems[0], e.elems[1])
    ensures e.Arr? && |e.elems| == 1 ==> p == (e.elems[0], Nil)
    ensures e.Arr? && |e.elems| == 0 ==> p == (Nil, Nil)
    ensures !e.Arr? ==> p == (e, Nil)
  {
    match e
    case Arr(xs) => (if |xs| > 0 then xs[0] else Nil, if |xs| > 1 then xs[1] else Nil)
    case _ => (e, Nil)
  }

  /**
   The pairs `other.each` hands to the block `|key, value|`: a Hash yields its
   entries, an Array each element spread by `BlockPair`.
   */
  function Yielded(other: Value): (ps: seq<Entry>)
    requires other.HashV? || other.Arr?
    ensures other.HashV? ==> ps == other.entries
    ensures other.Arr? ==> |ps| == |other.elems| && forall i :: 0 <= i < |ps| ==> ps[i] == BlockPair(other.elems[i])
  {
    match other
    case HashV(b) => b
    case Arr(xs) => seq(|xs|, i requires 0 <= i < |xs| => BlockPair(xs[i]))
  }

  /**
   `a + other`: every pair `other.each` yields is stored into a copy of `a`.
   The key set is the union, the last pair naming a key gives its value, keys
   no pair names keep `a`'s values, `a`'s keys keep their order and the new
   keys follow in the order the pairs first name them. An argument that is
   neither a Hash nor an Array has no `each`: NoMethodError.
   */
  function Plus(a: Hash, other: Value): (r: Result<Hash>)
    requires Valid(a)
    ensures r.Raise? <==> !(other.HashV? || other.Arr?)
    ensures r.Raise? ==> r.error == NoMethodError("each", other)
    ensures r.Ok? ==> Valid(r.value)
    ensures (other.HashV? || other.Arr?) && r.Ok? ==>
      forall k :: HasKey(r.value, k) <==> HasKey(a, k) || HasKey(Yielded(other), k)
    ensures (other.HashV? || other.Arr?) && r.Ok? ==>
      forall k :: !HasKey(Yielded(other), k) ==> Lookup(r.value, k) == Lookup(a, k)
    ensures (other.HashV? || other.Arr?) && r.Ok? ==>
      forall i :: 0 <= i < |Yielded(other)| && IsLastFor(Yielded(other), i) ==>
        Lookup(r.value, Yielded(other)[i].0) == Yielded(other)[i].1
    ensures other.HashV? && Valid(other.entries) && r.Ok? ==>
      forall i :: 0 <= i < |other.entries| ==> Lookup(r.value, other.entries[i].0) == other.entries[i].1
    ensures r.Ok? ==> |a| <= |r.value| && forall i :: 0 <= i < |a| ==> r.value[i].0 == a[i].0
    ensures (other.HashV? || other.Arr?) && r.Ok? ==>
      Keys(r.value)[|a|..] == FirstNew(Keys(a), Keys(Yielded(other)))
  {
    if other.HashV? || other.Arr? then
      var ps := Yielded(other);
      StoreAllSummary(a, ps);
      assert other.HashV? && Valid(other.entries) ==> forall i :: 0 <= i < |ps| ==> IsLastFor(ps, i);
      Ok(StoreAll(a, ps))
    else
      Raise(NoMethodError("each", other))
  }

  /** `a + {}` is `a`. */
  lemma PlusEmpty(a: Hash)
    requires Valid(a)
    ensures Plus(a, HashV([])) == Ok(a)
  {
  }

  /** With no shared key, `a + b` is `a`'s pairs followed by `b`'s. */
  lemma PlusDisjoint(a: Hash, b: Hash)
    requires Valid(a) && Valid(b)
    requires forall i :: 0 <= i < |b| ==> !HasKey(a, b[i].0)
    ensures Plus(a, HashV(b)) == Ok(a + b)
  {
    StoreAllFresh(a, b);
  }

  /** Adding an array of two-element arrays is adding the hash of those pairs. */
  lemma PlusArrayOfPairs(a: Hash, xs: seq<Value>, b: Hash)
    requires Valid(a)
    requires |xs| == |b|
    requires forall i :: 0 <= i < |xs| ==> xs[i] == Arr([b[i].0, b[i].1])
    ensures Plus(a, Arr(xs)) == Plus(a, HashV(b))
  {
    assert Yielded(Arr(xs)) == b;
  }

  /**
   Elements that are not two-element arrays still yield pairs: a scalar is a
   key bound to nil, a one-element array too, and a longer array gives its
   first two elements. `{} + [1, [2], [3, 4, 5]]` is `{1 => nil, 2 => nil, 3 => 4}`.
   */
  lemma PlusNonPairElements()
    ensures Plus([], Arr([Int(1), Arr([Int(2)]), Arr([Int(3), Int(4), Int(5)])]))
      == Ok([(Int(1), Nil), (Int(2), Nil), (Int(3), Int(4))])
  {
    NonPairsYield();
    NonPairsStore();
  }

  /** What `each` yields for the elements of the example. */
  lemma NonPairsYield()
    ensures Yielded(Arr([Int(1), Arr([Int(2)]), Arr([Int(3), Int(4), Int(5)])]))
      == [(Int(1), Nil), (Int(2), Nil), (Int(3), Int(4))]
  {
  }

  /** The yielded keys are distinct, so storing them into `{}` gives them back. */
  lemma NonPairsStore()
    ensures StoreAll([], [(Int(1), Nil), (Int(2), Nil), (Int(3), Int(4))])
      == [(Int(1), Nil), (Int(2), Nil), (Int(3), Int(4))]
  {
    var ps: Hash := [(Int(1), Nil), (Int(2), Nil), (Int(3), Int(4))];
    assert Valid(ps);
    StoreAllFresh([], ps);
  }

  /** `{:foo => 'bar'} + {:baz => :qux}` is `{:foo => 'bar', :baz => :qux}`. */
  lemma AppendExample()
    ensures Plus([(Sym("foo"), Str("bar"))], HashV([(Sym("baz"), Sym("qux"))]))
      == Ok([(Sym("foo"), Str("bar")), (Sym("baz"), Sym("qux"))])
  {
    assert Keys([(Sym("foo"), Str("bar"))]) == [Sym("foo")];
    PlusDisjoint([(Sym("foo"), Str("bar"))], [(Sym("baz"), Sym("qux"))]);
    assert [(Sym("foo"), Str("bar"))] + [(Sym("baz"), Sym("qux"))] == [(Sym("foo"), Str("bar")), (Sym("baz"), Sym("qux"))];
  }

  /** `{:foo => 'bar'} + 'Hello'` raises NoMethodError for `each`: a String has no `each`. */
  lemma StringArgumentExample()
    ensures Plus([(Sym("foo"), Str("bar"))], Str("Hello")) == Raise(NoMethodError("each", Str("Hello")))
  {
  }

  /**
   A key named twice keeps the place of its first pair and the value of its
   last: `{} + [[:x, 1], [:y, 2], [:x, 3]]` is `{:x => 3, :y => 2}`.
   */
  lemma RepeatedKeysExample()
    ensures Plus([], Arr([Arr([Sym("x"), Int(1)]), Arr([Sym("y"), Int(2)]), Arr([Sym("x"), Int(3)])]))
      == Ok([(Sym("x"), Int(3)), (Sym("y"), Int(2))])
  {
    RepeatedYield();
    RepeatedStore();
  }

  /** What `each` yields for the elements of the repeated-key example. */
  lemma RepeatedYield()
    ensures Yielded(Arr([Arr([Sym("x"), Int(1)]), Arr([Sym("y"), Int(2)]), Arr([Sym("x"), Int(3)])]))
      == [(Sym("x"), Int(1)), (Sym("y"), Int(2)), (Sym("x"), Int(3))]
  {
  }

  /** Storing the yielded pairs one by one: the third pair overwrites the first in place. */
  lemma RepeatedStore()
    ensures StoreAll([], [(Sym("x"), Int(1)), (Sym("y"), Int(2)), (Sym("x"), Int(3))])
      == [(Sym("x"), Int(3)), (Sym("y"), Int(2))]
  {
    var ps: seq<Entry> := [(Sym("x"), Int(1)), (Sym("y"), Int(2)), (Sym("x"), Int(3))];
    var h1: Hash := [(Sym("x"), Int(1))];
    var h2: Hash := [(Sym("x"), Int(1)), (Sym("y"), Int(2))];
    RepeatedFirstTwo();
    RepeatedThird();
    assert ps[1..] == [(Sym("y"), Int(2)), (Sym("x"), Int(3))];
    assert ps[1..][1..] == [(Sym("x"), Int(3))];
    assert StoreAll([], ps) == StoreAll(h1, ps[1..]);
    assert StoreAll(h1, ps[1..]) == StoreAll(h2, ps[1..][1..]);
  }

  /** The first two pairs bring new keys, which are appended. */
  lemma RepeatedFirstTwo()
    ensures Store([], Sym("x"), Int(1)) == [(Sym("x"), Int(1))]
    ensures Store([(Sym("x"), Int(1))], Sym("y"), Int(2)) == [(Sym("x"), Int(1)), (Sym("y"), Int(2))]
  {
    StoreAppends([], (Sym("x"), Int(1)));
    assert [(Sym("x"), Int(1))] + [(Sym("y"), Int(2))] == [(Sym("x"), Int(1)), (Sym("y"), Int(2))];
    StoreAppends([(Sym("x"), Int(1))], (Sym("y"), Int(2)));
  }

  /** The third pair names `:x` again and rebinds it where it stands. */
  lemma RepeatedThird()
    ensures StoreAll([(Sym("x"), Int(1)), (Sym("y"), Int(2))], [(Sym("x"), Int(3))])
      == [(Sym("x"), Int(3)), (Sym("y"), Int(2))]
  {
    var h2: Hash := [(Sym("x"), Int(1)), (Sym("y"), Int(2))];
    HasKeyAt(h2, 0);
    var ps: seq<Entry> := [(Sym("x"), Int(3))];
    assert ps[1..] == [];
    assert Store(h2, Sym("x"), Int(3)) == [(Sym("x"), Int(3)), (Sym("y"), Int(2))];
  }
}
