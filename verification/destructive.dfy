/**
 The destructive `!` methods on a mutable Hash object: `clean!`, `only!`,
 `standardize!`, `symbolize_keys!` and `stringify_keys!`. Each leaves the
 receiver in the state the corresponding function of Sanitation or
 KeyNormalization describes, and returns the receiver itself.
 */
module Destructive {
  import opened Values
  import opened Hashes
  import opened Sanitation
  import opened KeyNormalization

  /** A Ruby Hash object: its identity, and its entries in insertion order. */
  class HashObject {
    var entries: Hash

    constructor(h: Hash)
      requires Valid(h)
      ensures entries == h
    {
      entries := h;
    }

    /** `clean!(*bad_keys)` (`not!`, `except!`): drops the bad keys from the receiver and returns it. */
    method CleanBang(badKeys: seq<Value>) returns (r: HashObject)
      requires Valid(entries)
      modifies this
      ensures r == this
      ensures entries == Clean(old(entries), badKeys) && Valid(entries)
    {
      entries := Clean(entries, badKeys);
      r := this;
    }

    /** `only!(*good_keys)`: keeps just the requested keys in the receiver and returns it. */
    method OnlyBang(goodKeys: seq<Value>) returns (r: HashObject)
      requires Valid(entries)
      modifies this
      ensures r == this
      ensures entries == Only(old(entries), goodKeys) && Valid(entries)
    {
      entries := Only(entries, goodKeys);
      r := this;
    }

    /**
     `standardize!(*kees, errors: errors)`: the loop as written, trimming
     the receiver with `only!` on every turn. `ReturnedSelf` is the normal
     return of the receiver `r`; on `Raised` the receiver keeps the state it
     had when the exception left the loop.
     */
    method StandardizeBang(kees: seq<Value>, errors: bool) returns (r: HashObject, outcome: Outcome)
      requires Valid(entries)
      modifies this
      ensures r == this
      ensures Valid(entries)
      ensures (entries, outcome) == StandardizeInPlace(old(entries), kees, errors)
    {
      StandardizeInPlaceIsLoop(entries, kees, errors);
      outcome := StandardizeLoop(kees, errors);
      r := this;
    }

    /** The `kees.each` loop of `standardize!`. */
    method StandardizeLoop(kees: seq<Value>, errors: bool) returns (outcome: Outcome)
      requires Valid(entries)
      modifies this
      ensures Valid(entries)
      ensures (entries, outcome) == StandardizeInPlaceLoop(old(entries), kees, kees, errors)
    {
      var self := entries;
      ghost var final := StandardizeInPlaceLoop(self, kees, kees, errors);
      var pending := kees;
      while |pending| > 0
        invariant Valid(self)
        invariant StandardizeInPlaceLoop(self, kees, pending, errors) == final
      {
        var key := pending[0];
        LoopTurn(self, kees, pending, errors);
        self := Only(self, kees);
        if !HasKey(self, key) {
          if errors {
            entries := self;
            outcome := Raised(MissingKeyError(self, key));
            return;
          }
          self := Store(self, key, Nil);
        }
        pending := pending[1..];
      }
      entries := self;
      outcome := ReturnedSelf;
    }

    /** The loop shared by `symbolize_keys!` and `stringify_keys!`, over a snapshot of the keys. */
    method NormalizeKeysBang(t: Target)
      requires Valid(entries)
      modifies this
      ensures Valid(entries)
      ensures entries == NormalizeKeysInPlace(old(entries), t)
    {
      var self := entries;
      var pending := Keys(self);
      while |pending| > 0
        invariant Valid(self)
        invariant Rotate(self, pending, t) == NormalizeKeysInPlace(old(entries), t)
      {
        var key := pending[0];
        var v := Lookup(self, key);
        self := Store(Delete(self, key), Converted(t, key), v);
        pending := pending[1..];
      }
      entries := self;
    }

    /** `symbolize_keys!`: converts the receiver's keys to symbols in place and returns it. */
    method SymbolizeKeysBang() returns (r: HashObject)
      requires Valid(entries)
      modifies this
      ensures r == this
      ensures entries == NormalizeKeysInPlace(old(entries), ToSymbol)
    {
      NormalizeKeysBang(ToSymbol);
      r := this;
    }

    /** `stringify_keys!`: converts the receiver's keys to strings in place and returns it. */
    method StringifyKeysBang() returns (r: HashObject)
      requires Valid(entries)
      modifies this
      ensures r == this
      ensures entries == NormalizeKeysInPlace(old(entries), ToString)
    {
      NormalizeKeysBang(ToString);
      r := this;
    }
  }
}
