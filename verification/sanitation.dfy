/**
 Key filtering and shape normalisation of a Hash: `clean` (`not`, `except`),
 `only` and `standardize`, with the loop that `standardize!` runs on its
 receiver. The in-place `!` methods themselves are in module Destructive.
 */
module Sanitation {
  import opened Values
  import opened Sequences
  import opened Hashes

  /** Every key of `h` is one of `ks`. */
  predicate KeysWithin(h: Hash, ks: seq<Value>)
  {
    forall i :: 0 <= i < |h| ==> h[i].0 in ks
  }

  /** One step of an entry filter: keeping or dropping the first entry in front of the filtered rest. */
  lemma FilterStep(h: Hash, rest: Hash, keep: bool)
    requires |h| > 0
    requires IsSubsequence(rest, h[1..])
    requires forall e :: e in rest ==> e in h[1..]
    requires Valid(h[1..]) ==> Valid(rest)
    ensures var r := (if keep then [h[0]] else []) + rest;
      && IsSubsequence(r, h)
      && (forall e :: e in r <==> (keep && e == h[0]) || e in rest)
      && (Valid(h) ==> Valid(r))
  {
    SubsequenceOfTail(rest, h);
    assert ([] + rest) == rest;
    if Valid(h) {
      FilterStepValid(h, rest, keep);
    }
  }

  /** Keeping the first entry in front of a filtered rest keeps the keys distinct. */
  lemma FilterStepValid(h: Hash, rest: Hash, keep: bool)
    requires |h| > 0 && Valid(h)
    requires forall e :: e in rest ==> e in h[1..]
    requires Valid(rest)
    ensures Valid((if keep then [h[0]] else []) + rest)
  {
    assert ([] + rest) == rest;
    if keep {
      HeadFresh(h, rest);
      ConsValid(h[0], rest);
    }
  }

  /** No entry taken from the tail of a valid hash has the key of its head. */
  lemma HeadFresh(h: Hash, rest: Hash)
    requires |h| > 0 && Valid(h)
    requires forall e :: e in rest ==> e in h[1..]
    ensures forall j :: 0 <= j < |rest| ==> rest[j].0 != h[0].0
  {
    forall j | 0 <= j < |rest|
      ensures rest[j].0 != h[0].0
    {
      assert rest[j] in rest;
      var i :| 0 <= i < |h| - 1 && h[1..][i] == rest[j];
      assert h[i + 1] == rest[j];
    }
  }

  /** An entry whose key a valid hash lacks can be put in front of it. */
  lemma ConsValid(x: Entry, rest: Hash)
    requires Valid(rest)
    requires forall j :: 0 <= j < |rest| ==> rest[j].0 != x.0
    ensures Valid([x] + rest)
  {
    var r := [x] + rest;
    forall i, j | 0 <= i < j < |r|
      ensures r[i].0 != r[j].0
    {
      assert r[j] == rest[j - 1];
      if i > 0 {
        assert r[i] == rest[i - 1];
      }
    }
  }

  /**
   `hash.clean(*bad_keys)`: exactly the entries whose key is not one of
   `badKeys`, in their original order; bad keys that are absent are ignored.
   */
  function Clean(h: Hash, badKeys: seq<Value>): (r: Hash)
    ensures forall e :: e in r <==> e in h && e.0 !in badKeys
    ensures IsSubsequence(r, h)
    ensures Valid(h) ==> Valid(r)
  {
    if |h| == 0 then []
    else
      var rest := Clean(h[1..], badKeys);
      FilterStep(h, rest, h[0].0 !in badKeys);
      (if h[0].0 in badKeys then [] else [h[0]]) + rest
  }

  /**
   `hash.only(*good_keys)`: exactly the entries whose key is one of
   `goodKeys`, in their original order; it never adds a key.
   */
  function Only(h: Hash, goodKeys: seq<Value>): (r: Hash)
    ensures forall e :: e in r <==> e in h && e.0 in goodKeys
    ensures IsSubsequence(r, h)
    ensures Valid(h) ==> Valid(r)
    ensures KeysWithin(r, goodKeys)
  {
    if |h| == 0 then []
    else
      var rest := Only(h[1..], goodKeys);
      FilterStep(h, rest, h[0].0 in goodKeys);
      (if h[0].0 in goodKeys then [h[0]] else []) + rest
  }

  /** `clean` as a sub-map: bad keys vanish, every other key keeps its binding. */
  lemma CleanLookup(h: Hash, badKeys: seq<Value>, k: Value)
    requires Valid(h)
    ensures HasKey(Clean(h, badKeys), k) <==> HasKey(h, k) && k !in badKeys
    ensures Lookup(Clean(h, badKeys), k) == if k in badKeys then Nil else Lookup(h, k)
  {
    var r := Clean(h, badKeys);
    EntryIffLookup(h, k, Lookup(h, k));
    EntryIffLookup(r, k, Lookup(r, k));
    EntryIffLookup(h, k, Lookup(r, k));
    EntryIffLookup(r, k, Lookup(h, k));
  }

  /** `only` as a sub-map: the requested keys that are present keep their binding, nothing else remains. */
  lemma OnlyLookup(h: Hash, goodKeys: seq<Value>, k: Value)
    requires Valid(h)
    ensures HasKey(Only(h, goodKeys), k) <==> HasKey(h, k) && k in goodKeys
    ensures Lookup(Only(h, goodKeys), k) == if k in goodKeys then Lookup(h, k) else Nil
  {
    var r := Only(h, goodKeys);
    EntryIffLookup(h, k, Lookup(h, k));
    EntryIffLookup(r, k, Lookup(r, k));
    EntryIffLookup(h, k, Lookup(r, k));
    EntryIffLookup(r, k, Lookup(h, k));
  }

  /** `clean` of keys that are all absent returns a copy equal to the receiver. */
  lemma {:induction false} CleanAbsentKeys(h: Hash, badKeys: seq<Value>)
    requires forall i :: 0 <= i < |h| ==> h[i].0 !in badKeys
    ensures Clean(h, badKeys) == h
  {
    if |h| > 0 {
      CleanAbsentKeys(h[1..], badKeys);
    }
  }

  /** `clean` of every key of the receiver leaves `{}`. */
  lemma {:induction false} CleanAllKeys(h: Hash, badKeys: seq<Value>)
    requires KeysWithin(h, badKeys)
    ensures Clean(h, badKeys) == []
  {
    if |h| > 0 {
      CleanAllKeys(h[1..], badKeys);
    }
  }

  /** `clean` works entry by entry, so it distributes over concatenation. */
  lemma {:induction false} CleanAppend(x: Hash, y: Hash, badKeys: seq<Value>)
    ensures Clean(x + y, badKeys) == Clean(x, badKeys) + Clean(y, badKeys)
  {
    if |x| > 0 {
      assert (x + y)[1..] == x[1..] + y;
      CleanAppend(x[1..], y, badKeys);
    } else {
      assert x + y == y;
    }
  }

  /** `only` of keys that are all absent is `{}`. */
  lemma {:induction false} OnlyAbsentKeys(h: Hash, goodKeys: seq<Value>)
    requires forall i :: 0 <= i < |h| ==> h[i].0 !in goodKeys
    ensures Only(h, goodKeys) == []
  {
    if |h| > 0 {
      OnlyAbsentKeys(h[1..], goodKeys);
    }
  }

  /** `only` leaves a hash whose keys are all requested as it is. */
  lemma {:induction false} OnlyKeepsWithin(h: Hash, goodKeys: seq<Value>)
    requires KeysWithin(h, goodKeys)
    ensures Only(h, goodKeys) == h
  {
    if |h| > 0 {
      OnlyKeepsWithin(h[1..], goodKeys);
    }
  }

  /** Applying `only` twice with the same keys is applying it once. */
  lemma OnlyIdempotent(h: Hash, goodKeys: seq<Value>)
    ensures Only(Only(h, goodKeys), goodKeys) == Only(h, goodKeys)
  {
    OnlyKeepsWithin(Only(h, goodKeys), goodKeys);
  }

  /** `clean` and `only` with the same keys split the receiver's entries between them. */
  lemma {:induction false} CleanOnlySplit(h: Hash, ks: seq<Value>)
    ensures |Clean(h, ks)| + |Only(h, ks)| == |h|
    ensures multiset(Clean(h, ks)) + multiset(Only(h, ks)) == multiset(h)
  {
    if |h| > 0 {
      CleanOnlySplit(h[1..], ks);
      CleanOnlyHead(h, ks);
      assert h == [h[0]] + h[1..];
    }
  }

  /** The first entry goes to exactly one side of the split. */
  lemma CleanOnlyHead(h: Hash, ks: seq<Value>)
    requires |h| > 0
    ensures |Clean(h, ks)| + |Only(h, ks)| == 1 + |Clean(h[1..], ks)| + |Only(h[1..], ks)|
    ensures multiset(Clean(h, ks)) + multiset(Only(h, ks))
      == multiset{h[0]} + multiset(Clean(h[1..], ks)) + multiset(Only(h[1..], ks))
  {
    SendToOneSide(h[0], Clean(h[1..], ks), Only(h[1..], ks), h[0].0 in ks);
  }

  /** The ArgumentError `standardize` raises: "#{self} is missing required key #{key}". */
  function MissingKeyError(receiver: Hash, key: Value): (e: Error)
    ensures e.ArgumentError?
    ensures Inspect(HashV(receiver)) <= e.message
    ensures |ToS(key)| <= |e.message| && e.message[|e.message| - |ToS(key)|..] == ToS(key)
  {
    ArgumentError(Inspect(HashV(receiver)) + " is missing required key " + ToS(key))
  }

  /** `kees[i]` is the first key of `kees` that `h` lacks. */
  predicate FirstMissing(h: Hash, kees: seq<Value>, i: int)
  {
    && 0 <= i < |kees|
    && !HasKey(h, kees[i])
    && forall j :: 0 <= j < i ==> HasKey(h, kees[j])
  }

  /**
   The loop of `standardize` over `kees`: a key `d` lacks raises when `errors`
   is set and is bound to nil otherwise. `receiver` is the hash the error
   message names.
   */
  function FillMissing(d: Hash, kees: seq<Value>, errors: bool, receiver: Hash): (r: Result<Hash>)
    requires Valid(d)
    ensures r.Raise? ==> errors && r.error.ArgumentError?
    ensures r.Ok? ==> Valid(r.value) && |d| <= |r.value|
    ensures r.Ok? ==> forall k :: HasKey(d, k) ==> HasKey(r.value, k)
    ensures r.Ok? ==> forall i :: 0 <= i < |kees| ==> HasKey(r.value, kees[i])
    decreases |kees|
  {
    if |kees| == 0 then Ok(d)
    else if HasKey(d, kees[0]) then FillMissing(d, kees[1..], errors, receiver)
    else if errors then Raise(MissingKeyError(receiver, kees[0]))
    else FillMissing(Store(d, kees[0], Nil), kees[1..], errors, receiver)
  }

  /**
   In tolerant mode the loop never raises, and it only appends: the entries
   already there stay where they are.
   */
  lemma {:induction false} FillMissingTolerant(d: Hash, kees: seq<Value>, receiver: Hash)
    requires Valid(d)
    ensures var r := FillMissing(d, kees, false, receiver);
      r.Ok? && Valid(r.value) && |d| <= |r.value| && r.value[..|d|] == d
    decreases |kees|
  {
    if |kees| > 0 {
      var d' := if HasKey(d, kees[0]) then d else Store(d, kees[0], Nil);
      FillMissingTolerant(d', kees[1..], receiver);
      var r := FillMissing(d', kees[1..], false, receiver).value;
      assert r[..|d|] == d'[..|d|];
    }
  }

  /**
   In tolerant mode the loop adds exactly the missing keys, bound to nil, and
   the keys already there keep their bindings.
   */
  lemma {:induction false} FillMissingTolerantKey(d: Hash, kees: seq<Value>, receiver: Hash, k: Value)
    requires Valid(d)
    ensures var r := FillMissing(d, kees, false, receiver);
      && r.Ok?
      && (HasKey(r.value, k) <==> HasKey(d, k) || k in kees)
      && Lookup(r.value, k) == Lookup(d, k)
    decreases |kees|
  {
    if |kees| > 0 {
      InHeadOrTail(kees, k);
      if HasKey(d, kees[0]) {
        FillMissingTolerantKey(d, kees[1..], receiver, k);
      } else {
        var d' := Store(d, kees[0], Nil);
        FillMissingTolerantKey(d', kees[1..], receiver, k);
        assert HasKey(d', k) <==> HasKey(d, k) || k == kees[0];
        assert Lookup(d', k) == Lookup(d, k);
      }
    }
  }

  /**
   In tolerant mode the missing keys are appended in the order `kees` first
   names them.
   */
  lemma {:induction false} FillMissingOrder(d: Hash, kees: seq<Value>, receiver: Hash)
    requires Valid(d)
    ensures FillMissing(d, kees, false, receiver).Ok?
    ensures Keys(FillMissing(d, kees, false, receiver).value) == Keys(d) + FirstNew(Keys(d), kees)
    decreases |kees|
  {
    FillMissingTolerant(d, kees, receiver);
    if |kees| == 0 {
      assert Keys(d) + [] == Keys(d);
    } else if HasKey(d, kees[0]) {
      FillMissingOrder(d, kees[1..], receiver);
      FirstNewStep(Keys(d), kees);
    } else {
      var d' := Store(d, kees[0], Nil);
      StoreAddsKey(d, kees[0], Nil);
      FillMissingOrder(d', kees[1..], receiver);
      FirstNewStep(Keys(d), kees);
      AppendMiddle(Keys(d), kees[0], FirstNew(Keys(d) + [kees[0]], kees[1..]));
    }
  }

  /** Nothing is new when every key has been seen. */
  lemma NothingNew(seen: seq<Value>, ks: seq<Value>)
    requires forall k :: k in ks ==> k in seen
    ensures FirstNew(seen, ks) == []
  {
  }

  /**
   In strict mode the loop raises exactly when some key is missing, naming the
   first one; otherwise it returns `d` untouched.
   */
  lemma {:induction false} FillMissingStrict(d: Hash, kees: seq<Value>, receiver: Hash)
    requires Valid(d)
    ensures FillMissing(d, kees, true, receiver).Raise? <==> exists k :: k in kees && !HasKey(d, k)
    ensures FillMissing(d, kees, true, receiver).Ok? ==> FillMissing(d, kees, true, receiver).value == d
    ensures FillMissing(d, kees, true, receiver).Raise? ==>
      exists i :: FirstMissing(d, kees, i) && FillMissing(d, kees, true, receiver).error == MissingKeyError(receiver, kees[i])
    decreases |kees|
  {
    if |kees| > 0 {
      if HasKey(d, kees[0]) {
        var r := FillMissing(d, kees[1..], true, receiver);
        assert FillMissing(d, kees, true, receiver) == r;
        FillMissingStrict(d, kees[1..], receiver);
        MissingPastPresentKey(d, kees);
        if r.Raise? {
          var i :| FirstMissing(d, kees[1..], i) && r.error == MissingKeyError(receiver, kees[1..][i]);
          assert FirstMissing(d, kees, i + 1);
        }
      } else {
        assert FirstMissing(d, kees, 0);
      }
    }
  }

  /** Past a key the hash has, a key of `kees` is missing exactly when one of the rest is. */
  lemma MissingPastPresentKey(d: Hash, kees: seq<Value>)
    requires |kees| > 0 && HasKey(d, kees[0])
    ensures (exists k :: k in kees && !HasKey(d, k)) <==> (exists k :: k in kees[1..] && !HasKey(d, k))
  {
    assert kees == [kees[0]] + kees[1..];
  }

  /**
   `hash.standardize(*kees, errors: errors)`. Tolerant: the result's keys are
   exactly `kees`; keys the receiver has keep their values, the others map to
   nil. Strict: ArgumentError naming the first missing key exactly when some
   key is missing, and otherwise `only(kees)`.
   */
  function Standardize(h: Hash, kees: seq<Value>, errors: bool): (r: Result<Hash>)
    requires Valid(h)
    ensures !errors ==> r.Ok?
    ensures r.Ok? ==> Valid(r.value)
    ensures r.Ok? ==> forall k :: HasKey(r.value, k) <==> k in kees
    ensures r.Ok? ==> forall k :: k in kees && HasKey(h, k) ==> Lookup(r.value, k) == Lookup(h, k)
    ensures r.Ok? ==> forall k :: k in kees && !HasKey(h, k) ==> Lookup(r.value, k) == Nil
    ensures errors ==> (r.Raise? <==> exists k :: k in kees && !HasKey(h, k))
    ensures errors && r.Ok? ==> r.value == Only(h, kees)
    ensures r.Raise? ==> exists i :: FirstMissing(h, kees, i) && r.error == MissingKeyError(h, kees[i])
    ensures r.Ok? ==> Keys(r.value) == Keys(Only(h, kees)) + FirstNew(Keys(Only(h, kees)), kees)
  {
    var d := Only(h, kees);
    StandardizeOrder(h, kees, errors);
    assert forall k :: HasKey(d, k) <==> HasKey(h, k) && k in kees by {
      forall k
        ensures HasKey(d, k) <==> HasKey(h, k) && k in kees
      {
        OnlyLookup(h, kees, k);
      }
    }
    assert forall k :: Lookup(d, k) == if k in kees then Lookup(h, k) else Nil by {
      forall k
        ensures Lookup(d, k) == if k in kees then Lookup(h, k) else Nil
      {
        OnlyLookup(h, kees, k);
      }
    }
    FillMissingTolerant(d, kees, h);
    FillMissingStrict(d, kees, h);
    var r := FillMissing(d, kees, errors, h);
    assert r.Ok? ==> forall k :: (HasKey(r.value, k) <==> HasKey(d, k) || k in kees) && Lookup(r.value, k) == Lookup(d, k) by {
      if r.Ok? {
        forall k
          ensures (HasKey(r.value, k) <==> HasKey(d, k) || k in kees) && Lookup(r.value, k) == Lookup(d, k)
        {
          FillMissingTolerantKey(d, kees, h, k);
        }
      }
    }
    assert r.Raise? ==> exists i :: FirstMissing(h, kees, i) && r.error == MissingKeyError(h, kees[i]) by {
      if r.Raise? {
        var i :| FirstMissing(d, kees, i) && r.error == MissingKeyError(h, kees[i]);
        assert FirstMissing(h, kees, i);
      }
    }
    r
  }

  /**
   The keys `standardize` returns: the receiver's requested keys in the
   receiver's order, then the missing ones in the order `kees` names them.
   */
  lemma StandardizeOrder(h: Hash, kees: seq<Value>, errors: bool)
    requires Valid(h)
    ensures var d := Only(h, kees); var r := FillMissing(d, kees, errors, h);
      r.Ok? ==> Keys(r.value) == Keys(d) + FirstNew(Keys(d), kees)
  {
    var d := Only(h, kees);
    if errors {
      FillMissingStrict(d, kees, h);
      if FillMissing(d, kees, true, h).Ok? {
        forall k | k in kees
          ensures k in Keys(d)
        {
        }
        NothingNew(Keys(d), kees);
        assert Keys(d) + [] == Keys(d);
      }
    } else {
      FillMissingOrder(d, kees, h);
    }
  }

  /**
   The loop `standardize!` runs on its receiver, over the keys still to visit:
   every turn first trims the receiver with `only!(kees)`, then checks one key,
   raising (strict) or binding it to nil (tolerant) when it is missing. The
   result is the receiver's final state and what the call did.
   */
  function StandardizeInPlaceLoop(self: Hash, kees: seq<Value>, pending: seq<Value>, errors: bool): (r: (Hash, Outcome))
    requires Valid(self)
    ensures Valid(r.0)
    ensures r.1.Raised? ==> errors && r.1.error.ArgumentError?
    decreases |pending|
  {
    if |pending| == 0 then (self, ReturnedSelf)
    else
      var trimmed := Only(self, kees);
      if HasKey(trimmed, pending[0]) then StandardizeInPlaceLoop(trimmed, kees, pending[1..], errors)
      else if errors then (trimmed, Raised(MissingKeyError(trimmed, pending[0])))
      else StandardizeInPlaceLoop(Store(trimmed, pending[0], Nil), kees, pending[1..], errors)
  }

  /** Once the receiver is trimmed, each turn of the `standardize!` loop is a turn of the `standardize` loop. */
  lemma {:induction false} LoopOnTrimmed(self: Hash, kees: seq<Value>, pending: seq<Value>, errors: bool, receiver: Hash)
    requires Valid(self) && KeysWithin(self, kees)
    requires forall k :: k in pending ==> k in kees
    ensures !errors ==> (FillMissing(self, pending, false, receiver).Ok?
      && StandardizeInPlaceLoop(self, kees, pending, errors) == (FillMissing(self, pending, false, receiver).value, ReturnedSelf))
    ensures errors ==> StandardizeInPlaceLoop(self, kees, pending, errors).0 == self
    ensures errors ==> (StandardizeInPlaceLoop(self, kees, pending, errors).1.Raised? <==> FillMissing(self, pending, true, receiver).Raise?)
    ensures errors && StandardizeInPlaceLoop(self, kees, pending, errors).1.Raised? ==>
      FillMissing(self, pending, true, self).Raise?
      && StandardizeInPlaceLoop(self, kees, pending, errors).1.error == FillMissing(self, pending, true, self).error
    decreases |pending|
  {
    if |pending| > 0 {
      OnlyKeepsWithin(self, kees);
      assert pending[0] in pending;
      assert forall k :: k in pending[1..] ==> k in pending;
      if HasKey(self, pending[0]) {
        LoopOnTrimmed(self, kees, pending[1..], errors, receiver);
      } else if !errors {
        var s' := Store(self, pending[0], Nil);
        assert KeysWithin(s', kees);
        LoopOnTrimmed(s', kees, pending[1..], errors, receiver);
      }
    }
  }

  /**
   `hash.standardize!(*kees, errors: errors)` as written: the receiver's final
   state and whether the call returned or raised. With at least one key it
   ends where `standardize` would: tolerant, equal to its result; strict,
   trimmed to `only(kees)` (no nil added), raising exactly when `standardize`
   raises. With no keys the loop never runs and the receiver is untouched.
   */
  function StandardizeInPlace(h: Hash, kees: seq<Value>, errors: bool): (r: (Hash, Outcome))
    requires Valid(h)
    ensures |kees| == 0 ==> r == (h, ReturnedSelf)
    ensures |kees| > 0 && !errors ==> r == (Standardize(h, kees, false).value, ReturnedSelf)
    ensures |kees| > 0 && errors ==> r.0 == Only(h, kees)
    ensures |kees| > 0 && errors ==> (r.1.Raised? <==> Standardize(h, kees, true).Raise?)
    ensures |kees| > 0 && errors && r.1.Raised? ==>
      exists i :: FirstMissing(h, kees, i) && r.1.error == MissingKeyError(Only(h, kees), kees[i])
  {
    var r := StandardizeInPlaceLoop(h, kees, kees, errors);
    if |kees| > 0 then
      var d := Only(h, kees);
      OnlyIdempotent(h, kees);
      assert r == StandardizeInPlaceLoop(d, kees, kees, errors);
      LoopOnTrimmed(d, kees, kees, errors, h);
      FillMissingStrict(d, kees, h);
      TrimmedError(h, kees, r.1);
      r
    else r
  }

  /**
   The error of the strict `standardize` loop run on the trimmed receiver,
   with the message naming the trimmed receiver, names the first key the
   original receiver lacks.
   */
  lemma TrimmedError(h: Hash, kees: seq<Value>, outcome: Outcome)
    requires Valid(h)
    requires outcome.Raised? ==>
      FillMissing(Only(h, kees), kees, true, Only(h, kees)).Raise?
      && outcome.error == FillMissing(Only(h, kees), kees, true, Only(h, kees)).error
    ensures outcome.Raised? ==>
      exists i :: FirstMissing(h, kees, i) && outcome.error == MissingKeyError(Only(h, kees), kees[i])
  {
    if outcome.Raised? {
      var d := Only(h, kees);
      FillMissingStrict(d, kees, d);
      var i :| FirstMissing(d, kees, i) && outcome.error == MissingKeyError(d, kees[i]);
      FirstMissingOfOnly(h, kees, i);
    }
  }

  /** A key of `kees` is missing from `only(kees)` exactly when it is missing from the receiver. */
  lemma FirstMissingOfOnly(h: Hash, kees: seq<Value>, i: int)
    requires Valid(h) && FirstMissing(Only(h, kees), kees, i)
    ensures FirstMissing(h, kees, i)
  {
    OnlyLookup(h, kees, kees[i]);
    forall j | 0 <= j < i
      ensures HasKey(h, kees[j])
    {
      OnlyLookup(h, kees, kees[j]);
    }
  }

  /** One turn of the `standardize!` loop. */
  lemma LoopTurn(self: Hash, kees: seq<Value>, pending: seq<Value>, errors: bool)
    requires Valid(self) && |pending| > 0
    ensures var trimmed := Only(self, kees);
      && (HasKey(trimmed, pending[0]) ==>
        StandardizeInPlaceLoop(self, kees, pending, errors) == StandardizeInPlaceLoop(trimmed, kees, pending[1..], errors))
      && (!HasKey(trimmed, pending[0]) && errors ==>
        StandardizeInPlaceLoop(self, kees, pending, errors) == (trimmed, Raised(MissingKeyError(trimmed, pending[0]))))
      && (!HasKey(trimmed, pending[0]) && !errors ==>
        StandardizeInPlaceLoop(self, kees, pending, errors) == StandardizeInPlaceLoop(Store(trimmed, pending[0], Nil), kees, pending[1..], errors))
  {
  }

  /** `standardize!` is its loop run over all the keys. */
  lemma StandardizeInPlaceIsLoop(h: Hash, kees: seq<Value>, errors: bool)
    requires Valid(h)
    ensures StandardizeInPlace(h, kees, errors) == StandardizeInPlaceLoop(h, kees, kees, errors)
  {
  }

  /**
   `standardize!` as its documentation describes it: the receiver is trimmed
   to the requested keys even when there are none, so it always ends where
   `standardize` would.
   */
  function StandardizeInPlaceFixed(h: Hash, kees: seq<Value>, errors: bool): (r: (Hash, Outcome))
    requires Valid(h)
    ensures !errors ==> r == (Standardize(h, kees, false).value, ReturnedSelf)
    ensures errors ==> r.0 == Only(h, kees)
    ensures errors ==> (r.1.Raised? <==> Standardize(h, kees, true).Raise?)
    ensures errors && r.1.Raised? ==>
      exists i :: FirstMissing(h, kees, i) && r.1.error == MissingKeyError(Only(h, kees), kees[i])
  {
    var d := Only(h, kees);
    if |kees| == 0 then (d, ReturnedSelf)
    else
      OnlyIdempotent(h, kees);
      LoopOnTrimmed(d, kees, kees, errors, h);
      FillMissingStrict(d, kees, h);
      var r := StandardizeInPlaceLoop(d, kees, kees, errors);
      TrimmedError(h, kees, r.1);
      r
  }

  /** With no keys, `standardize!` leaves `{:foo => 'bar'}` as it was, while `standardize` returns `{}`. */
  lemma StandardizeInPlaceIgnoresEmptyKeyList()
    ensures var h := [(Sym("foo"), Str("bar"))];
      StandardizeInPlace(h, [], false).0 == h && Standardize(h, [], false) == Ok([])
  {
    var h := [(Sym("foo"), Str("bar"))];
    assert Only(h, []) == [];
  }
}
