/**
 `symbolize_keys`, `stringify_keys` and the loop their `!` forms run. Both
 directions share one definition, parameterised by the conversion.
 */
module KeyNormalization {
  import opened Values
  import opened Sequences
  import opened Hashes

  /** Which conversion a key goes through: `to_sym` or `to_s`. */
  datatype Target = ToSymbol | ToString

  function MethodName(t: Target): string
  {
    match t
    case ToSymbol => "to_sym"
    case ToString => "to_s"
  }

  /** Whether `k` has the conversion method: only strings and symbols have `to_sym`; every object has `to_s`. */
  predicate Convertible(t: Target, k: Value)
  {
    t == ToString || k.Str? || k.Sym?
  }

  /**
   The key a conversion produces, and `k` itself when `k` lacks the method:
   the `(key.to_sym rescue key) || key` of the `!` forms. Where the method
   exists it agrees with `k.to_sym` / `k.to_s`.
   */
  function Converted(t: Target, k: Value): (c: Value)
    ensures ToS(c) == ToS(k)
    ensures t == ToString ==> c.Str?
    ensures t == ToSymbol && (k.Str? || k.Sym?) ==> c.Sym?
    ensures !Convertible(t, k) ==> c == k
  {
    match t
    case ToString => Str(ToS(k))
    case ToSymbol =>
      match k
      case Str(s) => Sym(s)
      case _ => k
  }

  /** A converted key converts to itself. */
  lemma ConvertedIdempotent(t: Target, k: Value)
    ensures Converted(t, Converted(t, k)) == Converted(t, k)
  {
  }

  /** The receiver's pairs with every key converted, in order: the pairs the loops store. */
  function Mapped(h: Hash, t: Target): (m: Hash)
  {
    seq(|h|, i requires 0 <= i < |h| => (Converted(t, h[i].0), h[i].1))
  }

  /** `h[i]` has the first key that lacks the conversion method. */
  predicate FirstUnconvertible(h: Hash, t: Target, i: int)
  {
    && 0 <= i < |h|
    && !Convertible(t, h[i].0)
    && forall j :: 0 <= j < i ==> Convertible(t, h[j].0)
  }

  /** Splitting the receiver into its first entry and the rest, for the conversion loop. */
  lemma RebuildSplit(rest: Hash, t: Target)
    requires |rest| > 0
    ensures Mapped(rest, t) == [(Converted(t, rest[0].0), rest[0].1)] + Mapped(rest[1..], t)
    ensures (exists i :: 0 <= i < |rest| && !Convertible(t, rest[i].0)) <==>
      !Convertible(t, rest[0].0) || exists i :: 0 <= i < |rest[1..]| && !Convertible(t, rest[1..][i].0)
    ensures forall i :: FirstUnconvertible(rest[1..], t, i) && Convertible(t, rest[0].0) ==> FirstUnconvertible(rest, t, i + 1)
  {
    assert forall i :: 0 <= i < |rest[1..]| ==> rest[1..][i] == rest[i + 1];
  }

  /**
   The loop of the non-destructive forms, `rest.each {|k, v| dup[k.to_sym] = v}`:
   NoMethodError at the first key without the method; otherwise the same as
   storing every converted pair into `dup`.
   */
  function Rebuild(dup: Hash, rest: Hash, t: Target): (r: Result<Hash>)
    requires Valid(dup)
    ensures r.Raise? <==> exists i :: 0 <= i < |rest| && !Convertible(t, rest[i].0)
    ensures r.Raise? ==> exists i :: FirstUnconvertible(rest, t, i) && r.error == NoMethodError(MethodName(t), rest[i].0)
    ensures r.Ok? ==> r.value == StoreAll(dup, Mapped(rest, t))
    decreases |rest|
  {
    if |rest| == 0 then Ok(dup)
    else
      RebuildSplit(rest, t);
      if !Convertible(t, rest[0].0) then
        assert FirstUnconvertible(rest, t, 0);
        Raise(NoMethodError(MethodName(t), rest[0].0))
      else
        Rebuild(Store(dup, Converted(t, rest[0].0), rest[0].1), rest[1..], t)
  }

  /**
   `symbolize_keys` / `stringify_keys` on `h`. NoMethodError at the first
   key without the method (never for `to_s`). Otherwise a valid hash, no
   larger than `h`, whose keys are exactly the converted keys of `h`; when
   several keys convert to the same key, the value of the last of them wins.
   */
  function NormalizeKeys(h: Hash, t: Target): (r: Result<Hash>)
    ensures t == ToString ==> r.Ok?
    ensures r.Raise? <==> exists i :: 0 <= i < |h| && !Convertible(t, h[i].0)
    ensures r.Raise? ==> exists i :: FirstUnconvertible(h, t, i) && r.error == NoMethodError(MethodName(t), h[i].0)
    ensures r.Ok? ==> Valid(r.value) && |r.value| <= |h|
    ensures r.Ok? ==> forall k :: HasKey(r.value, k) <==> exists i :: 0 <= i < |h| && Converted(t, h[i].0) == k
    ensures r.Ok? ==> forall i :: 0 <= i < |h| && IsLastFor(Mapped(h, t), i) ==> Lookup(r.value, Converted(t, h[i].0)) == h[i].1
  {
    var r := Rebuild([], h, t);
    var m := Mapped(h, t);
    assert r.Ok? ==> forall k :: HasKey(r.value, k) <==> exists i :: 0 <= i < |h| && Converted(t, h[i].0) == k by {
      if r.Ok? {
        forall k
          ensures HasKey(r.value, k) <==> exists i :: 0 <= i < |h| && Converted(t, h[i].0) == k
        {
          StoreAllKeys([], m, k);
          HasKeyIffEntry(m, k);
          assert !HasKey([], k);
          assert forall i :: 0 <= i < |h| ==> m[i].0 == Converted(t, h[i].0);
        }
      }
    }
    assert r.Ok? ==> forall i :: 0 <= i < |h| && IsLastFor(m, i) ==> Lookup(r.value, Converted(t, h[i].0)) == h[i].1 by {
      if r.Ok? {
        forall i | 0 <= i < |h| && IsLastFor(m, i)
          ensures Lookup(r.value, Converted(t, h[i].0)) == h[i].1
        {
          StoreAllLastWins([], m, i);
        }
      }
    }
    r
  }

  /** `hash.symbolize_keys`: every key of the result is a symbol. */
  function SymbolizeKeys(h: Hash): (r: Result<Hash>)
    ensures r.Raise? <==> exists i :: 0 <= i < |h| && !(h[i].0.Str? || h[i].0.Sym?)
    ensures r.Ok? ==> Valid(r.value) && |r.value| <= |h|
    ensures r.Ok? ==> forall i :: 0 <= i < |r.value| ==> r.value[i].0.Sym?
  {
    var r := NormalizeKeys(h, ToSymbol);
    assert r.Ok? ==> forall i :: 0 <= i < |r.value| ==> r.value[i].0.Sym? by {
      if r.Ok? {
        forall i | 0 <= i < |r.value|
          ensures r.value[i].0.Sym?
        {
          HasKeyAt(r.value, i);
        }
      }
    }
    r
  }

  /** `hash.stringify_keys`: never raises, and every key of the result is a string. */
  function StringifyKeys(h: Hash): (r: Hash)
    ensures Valid(r) && |r| <= |h|
    ensures forall i :: 0 <= i < |r| ==> r[i].0.Str?
  {
    var r := NormalizeKeys(h, ToString).value;
    assert forall i :: 0 <= i < |r| ==> r[i].0.Str? by {
      forall i | 0 <= i < |r|
        ensures r[i].0.Str?
      {
        HasKeyAt(r, i);
      }
    }
    r
  }

  /** No two keys of `h` convert to the same key. */
  ghost predicate ConversionInjective(h: Hash, t: Target)
  {
    forall i, j :: 0 <= i < |h| && 0 <= j < |h| && i != j ==> Converted(t, h[i].0) != Converted(t, h[j].0)
  }

  /** Without collisions, the non-destructive forms convert every key in place, keeping the order. */
  lemma NormalizeKeysInjective(h: Hash, t: Target)
    requires ConversionInjective(h, t)
    requires forall i :: 0 <= i < |h| ==> Convertible(t, h[i].0)
    ensures NormalizeKeys(h, t) == Ok(Mapped(h, t))
  {
    var m := Mapped(h, t);
    assert Valid(m) by {
      forall i, j | 0 <= i < j < |m|
        ensures m[i].0 != m[j].0
      {
        assert m[i].0 == Converted(t, h[i].0) && m[j].0 == Converted(t, h[j].0);
      }
    }
    StoreAllFresh([], m);
    assert Rebuild([], h, t).Ok?;
    assert Rebuild([], h, t).value == m;
  }

  /**
   The loop of the `!` forms over the keys still to visit:
   `self[(key.to_sym rescue key) || key] = delete(key)` for each key of the
   snapshot `keys`, in order.
   */
  function Rotate(self: Hash, pending: seq<Value>, t: Target): (r: Hash)
    requires Valid(self)
    ensures Valid(r)
    decreases |pending|
  {
    if |pending| == 0 then self
    else
      var key := pending[0];
      var v := Lookup(self, key);
      Rotate(Store(Delete(self, key), Converted(t, key), v), pending[1..], t)
  }

  /** `hash.symbolize_keys!` / `hash.stringify_keys!`: the receiver's final state. */
  function NormalizeKeysInPlace(h: Hash, t: Target): (r: Hash)
    requires Valid(h)
    ensures Valid(r)
  {
    Rotate(h, Keys(h), t)
  }

  /**
   What the loop leaves as keys: the converted keys of everything it visited,
   and the keys it never visited. A visited key that another key converts to
   is deleted and put back, because a converted key converts to itself.
   */
  lemma {:induction false} RotateKeys(self: Hash, pending: seq<Value>, t: Target, x: Value)
    requires Valid(self)
    ensures HasKey(Rotate(self, pending, t), x) <==>
      (HasKey(self, x) && x !in pending) || exists i :: 0 <= i < |pending| && Converted(t, pending[i]) == x
    decreases |pending|
  {
    if |pending| > 0 {
      var p := pending[0];
      var rest := pending[1..];
      var s' := Store(Delete(self, p), Converted(t, p), Lookup(self, p));
      RotateKeys(s', rest, t, x);
      TurnKeys(self, p, t, x);
      PendingSplit(pending, t, x);
      if x in rest && x == Converted(t, p) {
        var j :| 0 <= j < |rest| && rest[j] == x;
        ConvertedIdempotent(t, p);
        assert Converted(t, rest[j]) == x;
      }
    }
  }

  /** One turn of the loop: the visited key is gone unless it is the converted key, which is now present. */
  lemma TurnKeys(self: Hash, p: Value, t: Target, x: Value)
    requires Valid(self)
    ensures HasKey(Store(Delete(self, p), Converted(t, p), Lookup(self, p)), x) <==>
      x == Converted(t, p) || (x != p && HasKey(self, x))
  {
  }

  /** Splitting the keys to visit into the first and the rest. */
  lemma PendingSplit(pending: seq<Value>, t: Target, x: Value)
    requires |pending| > 0
    ensures x !in pending <==> x != pending[0] && x !in pending[1..]
    ensures (exists i :: 0 <= i < |pending| && Converted(t, pending[i]) == x) <==>
      Converted(t, pending[0]) == x || exists i :: 0 <= i < |pending[1..]| && Converted(t, pending[1..][i]) == x
  {
    assert pending == [pending[0]] + pending[1..];
    if exists i :: 0 <= i < |pending| && Converted(t, pending[i]) == x {
      var i :| 0 <= i < |pending| && Converted(t, pending[i]) == x;
      if i > 0 {
        assert pending[1..][i - 1] == pending[i];
      }
    }
    if exists i :: 0 <= i < |pending[1..]| && Converted(t, pending[1..][i]) == x {
      var i :| 0 <= i < |pending[1..]| && Converted(t, pending[1..][i]) == x;
      assert pending[i + 1] == pending[1..][i];
    }
  }

  /** The converted keys of `h`, read off its key list or off its entries. */
  lemma ConvertedKeysOf(h: Hash, t: Target, x: Value)
    ensures (exists i :: 0 <= i < |Keys(h)| && Converted(t, Keys(h)[i]) == x) <==>
      exists i :: 0 <= i < |h| && Converted(t, h[i].0) == x
  {
    var ks := Keys(h);
    if exists i :: 0 <= i < |ks| && Converted(t, ks[i]) == x {
      var i :| 0 <= i < |ks| && Converted(t, ks[i]) == x;
      assert ks[i] == h[i].0;
    }
    if exists i :: 0 <= i < |h| && Converted(t, h[i].0) == x {
      var i :| 0 <= i < |h| && Converted(t, h[i].0) == x;
      assert ks[i] == h[i].0;
    }
  }

  /** `symbolize_keys!` / `stringify_keys!` end with the same keys as the copying forms: the converted keys of the receiver. */
  lemma InPlaceKeys(h: Hash, t: Target, x: Value)
    requires Valid(h)
    ensures HasKey(NormalizeKeysInPlace(h, t), x) <==> exists i :: 0 <= i < |h| && Converted(t, h[i].0) == x
  {
    RotateKeys(h, Keys(h), t, x);
    ConvertedKeysOf(h, t, x);
  }

  /** `v` occurs at most once in `s`. */
  predicate AtMostOnce(s: seq<Value>, v: Value)
  {
    forall i, j :: 0 <= i < j < |s| && s[i] == v ==> s[j] != v
  }

  /** A key without the method is never the target of another key, so the loop puts it back with its own value. */
  lemma {:induction false} RotateKeepsUnconvertible(self: Hash, pending: seq<Value>, t: Target, o: Value)
    requires Valid(self) && HasKey(self, o) && !Convertible(t, o)
    requires AtMostOnce(pending, o)
    ensures HasKey(Rotate(self, pending, t), o)
    ensures Lookup(Rotate(self, pending, t), o) == Lookup(self, o)
    decreases |pending|
  {
    if |pending| > 0 {
      var key := pending[0];
      var v := Lookup(self, key);
      var s' := Store(Delete(self, key), Converted(t, key), v);
      if key != o {
        assert Converted(t, key) != o;
      }
      assert HasKey(s', o) && Lookup(s', o) == Lookup(self, o);
      assert AtMostOnce(pending[1..], o) by {
        assert forall i :: 0 <= i < |pending| - 1 ==> pending[1..][i] == pending[i + 1];
      }
      RotateKeepsUnconvertible(s', pending[1..], t, o);
    }
  }

  /** `symbolize_keys!` leaves a key without `to_sym` in the hash, still bound to its value. */
  lemma InPlaceKeepsUnconvertible(h: Hash, t: Target, i: int)
    requires Valid(h) && 0 <= i < |h| && !Convertible(t, h[i].0)
    ensures HasKey(NormalizeKeysInPlace(h, t), h[i].0)
    ensures Lookup(NormalizeKeysInPlace(h, t), h[i].0) == h[i].1
  {
    HasKeyAt(h, i);
    assert AtMostOnce(Keys(h), h[i].0);
    RotateKeepsUnconvertible(h, Keys(h), t, h[i].0);
    assert Lookup(h, h[i].0) == h[i].1;
  }

  /** The state after `m` turns of the loop without collisions: the keys not yet visited, then the converted ones. */
  lemma InjectiveState(h: Hash, t: Target, m: int)
    requires Valid(h) && ConversionInjective(h, t) && 0 <= m <= |h|
    ensures Valid(h[m..] + Mapped(h, t)[..m])
  {
    var s := h[m..] + Mapped(h, t)[..m];
    forall i, j | 0 <= i < j < |s|
      ensures s[i].0 != s[j].0
    {
      if i < |h| - m && j >= |h| - m {
        var a := h[m + i].0;
        var b := h[j - (|h| - m)].0;
        assert s[i].0 == a && s[j].0 == Converted(t, b);
        ConvertedIdempotent(t, b);
      }
    }
  }

  /** One turn of the loop without collisions moves the next key, converted, to the end. */
  lemma InjectiveTurn(h: Hash, t: Target, m: int)
    requires Valid(h) && ConversionInjective(h, t) && 0 <= m < |h|
    requires Valid(h[m..] + Mapped(h, t)[..m])
    ensures Valid(h[m + 1..] + Mapped(h, t)[..m + 1])
    ensures Rotate(h[m..] + Mapped(h, t)[..m], Keys(h)[m..], t)
      == Rotate(h[m + 1..] + Mapped(h, t)[..m + 1], Keys(h)[m + 1..], t)
  {
    var M := Mapped(h, t);
    var s := h[m..] + M[..m];
    var key := h[m].0;
    assert Keys(h)[m..][0] == key && Keys(h)[m..][1..] == Keys(h)[m + 1..];
    var rest := h[m + 1..] + M[..m];
    assert s[0] == h[m] && s[1..] == rest;
    DeleteHead(s);
    InjectiveState(h, t, m + 1);
    AppendNext(h[m + 1..], M, m);
    StoreAppends(rest, M[m]);
  }

  /** The loop without collisions, from turn `m` on, ends with every key converted in place. */
  lemma {:induction false} RotateInjective(h: Hash, t: Target, m: int)
    requires Valid(h) && ConversionInjective(h, t) && 0 <= m <= |h|
    requires Valid(h[m..] + Mapped(h, t)[..m])
    ensures Rotate(h[m..] + Mapped(h, t)[..m], Keys(h)[m..], t) == Mapped(h, t)
    decreases |h| - m
  {
    if m == |h| {
      assert h[m..] + Mapped(h, t)[..m] == Mapped(h, t);
    } else {
      InjectiveTurn(h, t, m);
      RotateInjective(h, t, m + 1);
    }
  }

  /**
   Without collisions, `symbolize_keys!` / `stringify_keys!` leave the
   receiver equal to what the non-destructive form returns.
   */
  lemma InPlaceAgreesWithCopy(h: Hash, t: Target)
    requires Valid(h) && ConversionInjective(h, t)
    requires forall i :: 0 <= i < |h| ==> Convertible(t, h[i].0)
    ensures NormalizeKeys(h, t).Ok?
    ensures NormalizeKeysInPlace(h, t) == NormalizeKeys(h, t).value
  {
    assert h[0..] + Mapped(h, t)[..0] == h;
    RotateInjective(h, t, 0);
    NormalizeKeysInjective(h, t);
  }

  /**
   Without collisions the `!` forms convert every key where it stands, and a
   key without the conversion method stays as it is: the result is the
   receiver with its keys mapped, also when convertible and unconvertible
   keys are mixed.
   */
  lemma InPlaceInjective(h: Hash, t: Target)
    requires Valid(h) && ConversionInjective(h, t)
    ensures NormalizeKeysInPlace(h, t) == Mapped(h, t)
  {
    assert h[0..] + Mapped(h, t)[..0] == h;
    RotateInjective(h, t, 0);
  }

  /** `{1 => :x, "b" => 2}.symbolize_keys!` leaves `{1 => :x, :b => 2}`. */
  lemma InPlaceMixedExample()
    ensures NormalizeKeysInPlace([(Int(1), Sym("x")), (Str("b"), Int(2))], ToSymbol)
      == [(Int(1), Sym("x")), (Sym("b"), Int(2))]
  {
    MixedMapped();
    InPlaceInjective([(Int(1), Sym("x")), (Str("b"), Int(2))], ToSymbol);
  }

  /** In the mixed example, `1` stays and `"b"` becomes `:b`: no collision. */
  lemma MixedMapped()
    ensures Valid([(Int(1), Sym("x")), (Str("b"), Int(2))])
    ensures ConversionInjective([(Int(1), Sym("x")), (Str("b"), Int(2))], ToSymbol)
    ensures Mapped([(Int(1), Sym("x")), (Str("b"), Int(2))], ToSymbol) == [(Int(1), Sym("x")), (Sym("b"), Int(2))]
  {
    SwapKind("b");
    assert Converted(ToSymbol, Int(1)) == Int(1);
  }

  /** `to_sym` and `to_s` are inverse on strings and symbols. */
  lemma SwapKind(name: string)
    ensures Converted(ToSymbol, Str(name)) == Sym(name)
    ensures Converted(ToString, Sym(name)) == Str(name)
  {
  }

  /** Distinct string keys become distinct symbols, and back. */
  lemma KindSwapInjective(h: Hash, t: Target)
    requires Valid(h)
    requires t == ToSymbol ==> forall i :: 0 <= i < |h| ==> h[i].0.Str?
    requires t == ToString ==> forall i :: 0 <= i < |h| ==> h[i].0.Sym?
    ensures ConversionInjective(h, t)
    ensures forall i :: 0 <= i < |h| ==> Convertible(t, h[i].0)
  {
    forall i, j | 0 <= i < |h| && 0 <= j < |h| && i != j
      ensures Converted(t, h[i].0) != Converted(t, h[j].0)
    {
      if i < j {
        assert h[i].0 != h[j].0;
      } else {
        assert h[j].0 != h[i].0;
      }
    }
  }

  /** Keys of the kind `t` converts from: strings for `to_sym`, symbols for `to_s`. */
  predicate SourceKind(t: Target, k: Value)
  {
    if t == ToSymbol then k.Str? else k.Sym?
  }

  /** The conversion in the other direction. */
  function Back(t: Target): Target
  {
    if t == ToSymbol then ToString else ToSymbol
  }

  /** Converting keys of the source kind and converting them back restores the hash, and the middle hash is valid. */
  lemma MappedThereAndBack(h: Hash, t: Target)
    requires Valid(h)
    requires forall i :: 0 <= i < |h| ==> SourceKind(t, h[i].0)
    ensures Valid(Mapped(h, t))
    ensures forall i :: 0 <= i < |h| ==> SourceKind(Back(t), Mapped(h, t)[i].0)
    ensures Mapped(Mapped(h, t), Back(t)) == h
  {
    var m := Mapped(h, t);
    forall i | 0 <= i < |h|
      ensures SourceKind(Back(t), m[i].0) && Mapped(m, Back(t))[i] == h[i]
    {
      if t == ToSymbol {
        SwapKind(h[i].0.s);
      } else {
        SwapKind(h[i].0.name);
      }
    }
    forall i, j | 0 <= i < j < |m|
      ensures m[i].0 != m[j].0
    {
      assert Mapped(m, Back(t))[i] == h[i] && Mapped(m, Back(t))[j] == h[j];
    }
  }

  /** For a hash whose keys are all strings, `stringify_keys(symbolize_keys(h)) == h`. */
  lemma StringifyAfterSymbolize(h: Hash)
    requires Valid(h)
    requires forall i :: 0 <= i < |h| ==> h[i].0.Str?
    ensures SymbolizeKeys(h).Ok?
    ensures StringifyKeys(SymbolizeKeys(h).value) == h
  {
    KindSwapInjective(h, ToSymbol);
    NormalizeKeysInjective(h, ToSymbol);
    MappedThereAndBack(h, ToSymbol);
    var m := Mapped(h, ToSymbol);
    KindSwapInjective(m, ToString);
    NormalizeKeysInjective(m, ToString);
  }

  /** For a hash whose keys are all symbols, `symbolize_keys(stringify_keys(h)) == h`. */
  lemma SymbolizeAfterStringify(h: Hash)
    requires Valid(h)
    requires forall i :: 0 <= i < |h| ==> h[i].0.Sym?
    ensures SymbolizeKeys(StringifyKeys(h)).Ok?
    ensures SymbolizeKeys(StringifyKeys(h)).value == h
  {
    KindSwapInjective(h, ToString);
    NormalizeKeysInjective(h, ToString);
    MappedThereAndBack(h, ToString);
    var m := Mapped(h, ToString);
    KindSwapInjective(m, ToSymbol);
    NormalizeKeysInjective(m, ToSymbol);
  }

  /**
   When a key comes before the key it converts to, the two forms disagree:
   for `{"a" => 1, :a => 2}` `symbolize_keys` keeps the later value, 2, while
   `symbolize_keys!` overwrites `:a` with 1 while moving `"a"` and then moves
   that 1 again. `SymbolizeCollisionAgreeExample` shows the other order.
   */
  lemma SymbolizeCollisionExample()
    ensures SymbolizeKeys([(Str("a"), Int(1)), (Sym("a"), Int(2))]) == Ok([(Sym("a"), Int(2))])
    ensures NormalizeKeysInPlace([(Str("a"), Int(1)), (Sym("a"), Int(2))], ToSymbol) == [(Sym("a"), Int(1))]
  {
    CollisionCopy();
    CollisionKeys();
    CollisionInPlace();
  }

  /** The copy of the collision example: the later value wins. */
  lemma CollisionCopy()
    ensures Rebuild([], [(Str("a"), Int(1)), (Sym("a"), Int(2))], ToSymbol) == Ok([(Sym("a"), Int(2))])
  {
    CollisionCopyFirst();
    CollisionCopySecond();
  }

  /** The copy's first step stores `"a"` as `:a`. */
  lemma CollisionCopyFirst()
    ensures Rebuild([], [(Str("a"), Int(1)), (Sym("a"), Int(2))], ToSymbol)
      == Rebuild([(Sym("a"), Int(1))], [(Sym("a"), Int(2))], ToSymbol)
  {
    var h := [(Str("a"), Int(1)), (Sym("a"), Int(2))];
    SwapKind("a");
    assert Store([], Sym("a"), Int(1)) == [(Sym("a"), Int(1))];
    assert h[1..] == [(Sym("a"), Int(2))];
  }

  /** The copy's second step overwrites `:a` with the later value. */
  lemma CollisionCopySecond()
    ensures Rebuild([(Sym("a"), Int(1))], [(Sym("a"), Int(2))], ToSymbol) == Ok([(Sym("a"), Int(2))])
  {
    var t := [(Sym("a"), Int(2))];
    assert t[1..] == [];
    CollisionOverwrite();
  }

  /** Storing an existing key replaces its value in place. */
  lemma CollisionOverwrite()
    ensures Store([(Sym("a"), Int(1))], Sym("a"), Int(2)) == [(Sym("a"), Int(2))]
  {
    HasKeyAt([(Sym("a"), Int(1))], 0);
  }

  /** The in-place loop on the collision example: the earlier value survives. */
  lemma CollisionInPlace()
    ensures Rotate([(Str("a"), Int(1)), (Sym("a"), Int(2))], [Str("a"), Sym("a")], ToSymbol) == [(Sym("a"), Int(1))]
  {
    CollisionInPlaceFirst();
    CollisionInPlaceSecond();
  }

  /** The key snapshot the in-place loop walks. */
  lemma CollisionKeys()
    ensures Keys([(Str("a"), Int(1)), (Sym("a"), Int(2))]) == [Str("a"), Sym("a")]
  {
  }

  /** The first turn moves `"a"` onto `:a`, overwriting the later value. */
  lemma CollisionInPlaceFirst()
    ensures Rotate([(Str("a"), Int(1)), (Sym("a"), Int(2))], [Str("a"), Sym("a")], ToSymbol)
      == Rotate([(Sym("a"), Int(1))], [Sym("a")], ToSymbol)
  {
    var h := [(Str("a"), Int(1)), (Sym("a"), Int(2))];
    SwapKind("a");
    HasKeyAt(h, 0);
    assert Lookup(h, Str("a")) == Int(1);
    CollisionFirstTurn();
    assert [Str("a"), Sym("a")][1..] == [Sym("a")];
  }

  /** The second turn deletes and re-stores `:a` with the value it has. */
  lemma CollisionInPlaceSecond()
    ensures Rotate([(Sym("a"), Int(1))], [Sym("a")], ToSymbol) == [(Sym("a"), Int(1))]
  {
    var s1 := [(Sym("a"), Int(1))];
    HasKeyAt(s1, 0);
    assert Lookup(s1, Sym("a")) == Int(1);
    assert Delete(s1, Sym("a")) == [];
    assert Store([], Sym("a"), Int(1)) == s1;
  }

  /** Deleting `"a"` and storing its value under `:a`. */
  lemma CollisionFirstTurn()
    ensures Store(Delete([(Str("a"), Int(1)), (Sym("a"), Int(2))], Str("a")), Sym("a"), Int(1)) == [(Sym("a"), Int(1))]
  {
    var h := [(Str("a"), Int(1)), (Sym("a"), Int(2))];
    HasKeyAt(h, 0);
    assert Delete(h, Str("a")) == [(Sym("a"), Int(2))];
    HasKeyAt([(Sym("a"), Int(2))], 0);
  }

  /**
   When the converted key comes first the two forms agree: for
   `{:a => 2, "a" => 1}` both `symbolize_keys` and `symbolize_keys!` give
   `{:a => 1}`, the value of the later key.
   */
  lemma SymbolizeCollisionAgreeExample()
    ensures SymbolizeKeys([(Sym("a"), Int(2)), (Str("a"), Int(1))]) == Ok([(Sym("a"), Int(1))])
    ensures NormalizeKeysInPlace([(Sym("a"), Int(2)), (Str("a"), Int(1))], ToSymbol) == [(Sym("a"), Int(1))]
  {
    AgreeCopy();
    AgreeKeys();
    AgreeInPlace();
  }

  /** The copy of the reversed example: `"a"` overwrites the stored `:a`. */
  lemma AgreeCopy()
    ensures Rebuild([], [(Sym("a"), Int(2)), (Str("a"), Int(1))], ToSymbol) == Ok([(Sym("a"), Int(1))])
  {
    AgreeCopyFirst();
    AgreeCopySecond();
  }

  /** The copy's first step stores `:a` as it is. */
  lemma AgreeCopyFirst()
    ensures Rebuild([], [(Sym("a"), Int(2)), (Str("a"), Int(1))], ToSymbol)
      == Rebuild([(Sym("a"), Int(2))], [(Str("a"), Int(1))], ToSymbol)
  {
    var h := [(Sym("a"), Int(2)), (Str("a"), Int(1))];
    assert Store([], Sym("a"), Int(2)) == [(Sym("a"), Int(2))];
    assert h[1..] == [(Str("a"), Int(1))];
  }

  /** The copy's second step converts `"a"` and overwrites `:a` with 1. */
  lemma AgreeCopySecond()
    ensures Rebuild([(Sym("a"), Int(2))], [(Str("a"), Int(1))], ToSymbol) == Ok([(Sym("a"), Int(1))])
  {
    var t := [(Str("a"), Int(1))];
    assert t[1..] == [];
    SwapKind("a");
    HasKeyAt([(Sym("a"), Int(2))], 0);
    assert Store([(Sym("a"), Int(2))], Sym("a"), Int(1)) == [(Sym("a"), Int(1))];
    assert Rebuild([(Sym("a"), Int(1))], [], ToSymbol) == Ok([(Sym("a"), Int(1))]);
  }

  /** The key snapshot the in-place loop walks on the reversed example. */
  lemma AgreeKeys()
    ensures Keys([(Sym("a"), Int(2)), (Str("a"), Int(1))]) == [Sym("a"), Str("a")]
  {
  }

  /** The in-place loop on the reversed example: the later value survives. */
  lemma AgreeInPlace()
    ensures Rotate([(Sym("a"), Int(2)), (Str("a"), Int(1))], [Sym("a"), Str("a")], ToSymbol) == [(Sym("a"), Int(1))]
  {
    AgreeInPlaceFirst();
    AgreeInPlaceSecond();
  }

  /** The first turn deletes `:a` and stores it again after `"a"`. */
  lemma AgreeInPlaceFirst()
    ensures Rotate([(Sym("a"), Int(2)), (Str("a"), Int(1))], [Sym("a"), Str("a")], ToSymbol)
      == Rotate([(Str("a"), Int(1)), (Sym("a"), Int(2))], [Str("a")], ToSymbol)
  {
    var h := [(Sym("a"), Int(2)), (Str("a"), Int(1))];
    HasKeyAt(h, 0);
    assert Lookup(h, Sym("a")) == Int(2);
    AgreeFirstTurn();
    assert [Sym("a"), Str("a")][1..] == [Str("a")];
  }

  /** Deleting `:a` and storing its value under `:a` again, at the end. */
  lemma AgreeFirstTurn()
    ensures Store(Delete([(Sym("a"), Int(2)), (Str("a"), Int(1))], Sym("a")), Sym("a"), Int(2))
      == [(Str("a"), Int(1)), (Sym("a"), Int(2))]
  {
    AgreeDeleteSym();
    AgreeStoreSym();
  }

  /** Deleting the leading `:a` leaves `"a"`. */
  lemma AgreeDeleteSym()
    ensures Delete([(Sym("a"), Int(2)), (Str("a"), Int(1))], Sym("a")) == [(Str("a"), Int(1))]
  {
    var h := [(Sym("a"), Int(2)), (Str("a"), Int(1))];
    assert Valid(h) by {
      assert h[0].0 != h[1].0;
    }
    DeleteHead(h);
    assert h[1..] == [(Str("a"), Int(1))];
  }

  /** Storing `:a` next to `"a"` appends it. */
  lemma AgreeStoreSym()
    ensures Store([(Str("a"), Int(1))], Sym("a"), Int(2)) == [(Str("a"), Int(1)), (Sym("a"), Int(2))]
  {
    var d := [(Str("a"), Int(1))];
    assert Valid(d + [(Sym("a"), Int(2))]) by {
      assert (d + [(Sym("a"), Int(2))])[0].0 != (d + [(Sym("a"), Int(2))])[1].0;
    }
    StoreAppends(d, (Sym("a"), Int(2)));
  }

  /** The second turn moves `"a"` onto `:a`, overwriting the earlier value. */
  lemma AgreeInPlaceSecond()
    ensures Rotate([(Str("a"), Int(1)), (Sym("a"), Int(2))], [Str("a")], ToSymbol) == [(Sym("a"), Int(1))]
  {
    var h := [(Str("a"), Int(1)), (Sym("a"), Int(2))];
    SwapKind("a");
    HasKeyAt(h, 0);
    assert Lookup(h, Str("a")) == Int(1);
    CollisionFirstTurn();
    assert [Str("a")][1..] == [];
  }
}
