/**
 Ruby's Hash as an insertion-ordered association list with distinct keys, and
 the built-in operations the extensions are written with: `keys`, `has_key?`,
 `hash[key]` (nil when absent), `hash[key] = value` and `delete(key)`.
 */
module Hashes {
  import opened Values
  import opened Sequences

  type Entry = (Value, Value)
  type Hash = seq<Entry>

  /** `hash.keys`, in insertion order. */
  function Keys(h: Hash): seq<Value>
  {
    seq(|h|, i requires 0 <= i < |h| => h[i].0)
  }

  /** `hash.has_key?(k)` */
  predicate HasKey(h: Hash, k: Value)
  {
    k in Keys(h)
  }

  /** The Hash invariant: no two entries share a key. */
  predicate Valid(h: Hash)
  {
    forall i, j :: 0 <= i < j < |h| ==> h[i].0 != h[j].0
  }

  /** Position of the entry for `k`. */
  function IndexOf(h: Hash, k: Value): (i: nat)
    requires HasKey(h, k)
    ensures i < |h| && h[i].0 == k
    ensures forall j :: 0 <= j < i ==> h[j].0 != k
  {
    if h[0].0 == k then 0
    else
      assert HasKey(h[1..], k) by {
        var j :| 0 <= j < |h| && Keys(h)[j] == k;
        assert Keys(h[1..])[j - 1] == k;
      }
      1 + IndexOf(h[1..], k)
  }

  /** `hash[k]`: the value bound to `k`, or nil when `k` is absent. */
  function Lookup(h: Hash, k: Value): (v: Value)
    ensures !HasKey(h, k) ==> v == Nil
    ensures HasKey(h, k) ==> (k, v) in h
    ensures Valid(h) ==> forall i :: 0 <= i < |h| && h[i].0 == k ==> v == h[i].1
  {
    if HasKey(h, k) then
      var j := IndexOf(h, k);
      assert Valid(h) ==> forall i :: 0 <= i < |h| && h[i].0 == k ==> i == j;
      h[j].1
    else
      assert forall i :: 0 <= i < |h| ==> Keys(h)[i] == h[i].0;
      Nil
  }

  lemma HasKeyAt(h: Hash, i: int)
    requires 0 <= i < |h|
    ensures HasKey(h, h[i].0)
  {
    assert Keys(h)[i] == h[i].0;
  }

  lemma AllKeysPresent(h: Hash)
    ensures forall i :: 0 <= i < |h| ==> HasKey(h, h[i].0)
  {
    assert forall i :: 0 <= i < |h| ==> Keys(h)[i] == h[i].0;
  }

  /** In a valid hash, an entry is present exactly when looking its key up yields its value. */
  lemma EntryIffLookup(h: Hash, k: Value, v: Value)
    requires Valid(h)
    ensures (k, v) in h <==> HasKey(h, k) && Lookup(h, k) == v
  {
    if (k, v) in h {
      var i :| 0 <= i < |h| && h[i] == (k, v);
      HasKeyAt(h, i);
    }
  }

  /** `HasKey` in terms of the entries. */
  lemma HasKeyIffEntry(h: Hash, k: Value)
    ensures HasKey(h, k) <==> exists i :: 0 <= i < |h| && h[i].0 == k
  {
    if HasKey(h, k) {
      var i := IndexOf(h, k);
    }
    if exists i :: 0 <= i < |h| && h[i].0 == k {
      var i :| 0 <= i < |h| && h[i].0 == k;
      HasKeyAt(h, i);
    }
  }

  /** `hash[k] = v`: rebinds `k` where it stands, or appends `(k, v)` when `k` is new. */
  function Store(h: Hash, k: Value, v: Value): (r: Hash)
    ensures HasKey(h, k) ==> |r| == |h|
    ensures !HasKey(h, k) ==> r == h + [(k, v)]
    ensures forall i :: 0 <= i < |h| ==> r[i] == (if h[i].0 == k then (k, v) else h[i])
    ensures forall k' :: HasKey(r, k') <==> HasKey(h, k') || k' == k
    ensures Valid(h) ==> Valid(r) && Lookup(r, k) == v
    ensures Valid(h) ==> forall k' :: k' != k ==> Lookup(r, k') == Lookup(h, k')
  {
    if HasKey(h, k) then
      var r := seq(|h|, i requires 0 <= i < |h| => if h[i].0 == k then (k, v) else h[i]);
      assert Keys(r) == Keys(h);
      StoreFacts(h, k, v, r);
      r
    else
      var r := h + [(k, v)];
      assert forall i :: 0 <= i < |h| ==> Keys(h)[i] == h[i].0;
      assert Keys(r) == Keys(h) + [k];
      StoreFacts(h, k, v, r);
      r
  }

  lemma StoreFacts(h: Hash, k: Value, v: Value, r: Hash)
    requires |h| <= |r| <= |h| + 1
    requires forall i :: 0 <= i < |h| ==> r[i] == (if h[i].0 == k then (k, v) else h[i])
    requires |r| == |h| + 1 <==> !HasKey(h, k)
    requires |r| == |h| + 1 ==> r[|h|] == (k, v)
    ensures Valid(h) ==> Valid(r) && Lookup(r, k) == v
    ensures Valid(h) ==> forall k' :: k' != k ==> Lookup(r, k') == Lookup(h, k')
  {
    HasKeyIffEntry(h, k);
    HasKeyIffEntry(r, k);
    if Valid(h) {
      forall k' | k' != k
        ensures Lookup(r, k') == Lookup(h, k')
      {
        HasKeyIffEntry(r, k');
        HasKeyIffEntry(h, k');
      }
    }
  }

  /** `hash.delete(k)` on the receiver: removes the entry for `k`, if any. */
  function Delete(h: Hash, k: Value): (r: Hash)
    ensures !HasKey(h, k) ==> r == h
    ensures IsSubsequence(r, h)
    ensures HasKey(h, k) ==> |r| == |h| - 1
    ensures Valid(h) ==> Valid(r) && !HasKey(r, k)
    ensures Valid(h) ==> forall k' :: k' != k ==> (HasKey(r, k') <==> HasKey(h, k'))
    ensures Valid(h) ==> forall k' :: k' != k ==> Lookup(r, k') == Lookup(h, k')
  {
    if HasKey(h, k) then
      var i := IndexOf(h, k);
      var r := h[..i] + h[i + 1..];
      DropOne(h, i);
      assert forall j :: 0 <= j < |r| ==> r[j] == (if j < i then h[j] else h[j + 1]);
      assert Valid(h) ==> Valid(r);
      assert Valid(h) ==> !HasKey(r, k) by {
        if Valid(h) {
          HasKeyIffEntry(r, k);
        }
      }
      assert Valid(h) ==> forall k' :: k' != k ==> (HasKey(r, k') <==> HasKey(h, k')) && Lookup(r, k') == Lookup(h, k') by {
        if Valid(h) {
          forall k' | k' != k
            ensures (HasKey(r, k') <==> HasKey(h, k')) && Lookup(r, k') == Lookup(h, k')
          {
            HasKeyIffEntry(r, k');
            HasKeyIffEntry(h, k');
            if HasKey(h, k') {
              var j := IndexOf(h, k');
              assert r[if j < i then j else j - 1] == h[j];
            }
          }
        }
      }
      r
    else
      SubsequenceOfSelf(h);
      h
  }

  /** No entry after position `i` has the key of entry `i`: its binding is the one that survives. */
  predicate IsLastFor(pairs: seq<Entry>, i: int)
    requires 0 <= i < |pairs|
  {
    forall j :: i < j < |pairs| ==> pairs[j].0 != pairs[i].0
  }

  /** Deleting the first key of a valid hash drops its first entry, whose value `delete` returns. */
  lemma DeleteHead(h: Hash)
    requires Valid(h) && |h| > 0
    ensures Delete(h, h[0].0) == h[1..]
    ensures Lookup(h, h[0].0) == h[0].1
  {
    HasKeyAt(h, 0);
  }

  /** Storing a key a valid hash lacks appends its entry. */
  lemma StoreAppends(d: Hash, e: Entry)
    requires Valid(d + [e])
    ensures Store(d, e.0, e.1) == d + [e]
  {
    forall i | 0 <= i < |d|
      ensures d[i].0 != e.0
    {
      assert (d + [e])[i] == d[i] && (d + [e])[|d|] == e;
    }
    HasKeyIffEntry(d, e.0);
  }

  /** `pairs.each {|k, v| d[k] = v}`: stores every pair into `d`, in order. */
  function StoreAll(d: Hash, pairs: seq<Entry>): (r: Hash)
    requires Valid(d)
    ensures Valid(r)
    ensures |d| <= |r| <= |d| + |pairs|
    decreases |pairs|
  {
    if |pairs| == 0 then d
    else StoreAll(Store(d, pairs[0].0, pairs[0].1), pairs[1..])
  }

  lemma KeysOfTail(pairs: seq<Entry>)
    requires |pairs| > 0
    ensures Keys(pairs) == [pairs[0].0] + Keys(pairs[1..])
  {
  }

  /** Storing pairs yields the union of the key sets. */
  lemma {:induction false} StoreAllKeys(d: Hash, pairs: seq<Entry>, k: Value)
    requires Valid(d)
    ensures HasKey(StoreAll(d, pairs), k) <==> HasKey(d, k) || HasKey(pairs, k)
    decreases |pairs|
  {
    if |pairs| > 0 {
      KeysOfTail(pairs);
      StoreAllKeys(Store(d, pairs[0].0, pairs[0].1), pairs[1..], k);
    }
  }

  /** A key no pair carries keeps the binding it had. */
  lemma {:induction false} StoreAllKeepsOthers(d: Hash, pairs: seq<Entry>, k: Value)
    requires Valid(d)
    requires !HasKey(pairs, k)
    ensures Lookup(StoreAll(d, pairs), k) == Lookup(d, k)
    decreases |pairs|
  {
    if |pairs| > 0 {
      KeysOfTail(pairs);
      StoreAllKeepsOthers(Store(d, pairs[0].0, pairs[0].1), pairs[1..], k);
    }
  }

  /** The last pair that carries a key gives that key's value. */
  lemma {:induction false} StoreAllLastWins(d: Hash, pairs: seq<Entry>, i: int)
    requires Valid(d)
    requires 0 <= i < |pairs| && IsLastFor(pairs, i)
    ensures Lookup(StoreAll(d, pairs), pairs[i].0) == pairs[i].1
    decreases |pairs|
  {
    var d' := Store(d, pairs[0].0, pairs[0].1);
    if i == 0 {
      assert !HasKey(pairs[1..], pairs[0].0) by {
        HasKeyIffEntry(pairs[1..], pairs[0].0);
        assert forall j :: 0 <= j < |pairs| - 1 ==> pairs[1..][j] == pairs[j + 1];
      }
      StoreAllKeepsOthers(d', pairs[1..], pairs[0].0);
    } else {
      assert pairs[1..][i - 1] == pairs[i];
      assert IsLastFor(pairs[1..], i - 1);
      StoreAllLastWins(d', pairs[1..], i - 1);
    }
  }

  /** Storing pairs never moves a key the receiver already had. */
  lemma {:induction false} StoreAllPositions(d: Hash, pairs: seq<Entry>)
    requires Valid(d)
    ensures forall i :: 0 <= i < |d| ==> StoreAll(d, pairs)[i].0 == d[i].0
    decreases |pairs|
  {
    if |pairs| > 0 {
      StoreAllPositions(Store(d, pairs[0].0, pairs[0].1), pairs[1..]);
    }
  }

  /** The keys of a suffix are the suffix of the keys. */
  lemma KeysSuffix(r: Hash, a: int)
    requires 0 <= a <= |r|
    ensures Keys(r)[a..] == Keys(r[a..])
  {
  }

  /** When the first pair's key is new, it comes first among the keys added after the receiver's. */
  lemma NewKeysStep(d: Hash, pairs: seq<Entry>)
    requires Valid(d) && |pairs| > 0 && !HasKey(d, pairs[0].0)
    ensures var d' := Store(d, pairs[0].0, pairs[0].1);
      Keys(StoreAll(d, pairs))[|d|..] == [pairs[0].0] + Keys(StoreAll(d', pairs[1..]))[|d'|..]
  {
    var d' := Store(d, pairs[0].0, pairs[0].1);
    var r := StoreAll(d', pairs[1..]);
    assert StoreAll(d, pairs) == r;
    StoreAllPositions(d', pairs[1..]);
    var tail := r[|d|..];
    assert |tail| > 0 && tail[0].0 == pairs[0].0;
    assert tail[1..] == r[|d'|..];
    KeysOfTail(tail);
    KeysSuffix(r, |d|);
    KeysSuffix(r, |d'|);
  }

  /**
   The keys of `ks` not in `seen`, each once, in the order of their first
   occurrence in `ks`.
   */
  function FirstNew(seen: seq<Value>, ks: seq<Value>): (r: seq<Value>)
    ensures forall x :: x in r <==> x in ks && x !in seen
    ensures forall i, j :: 0 <= i < j < |r| ==> r[i] != r[j]
    ensures IsSubsequence(r, ks)
    decreases |ks|
  {
    if |ks| == 0 then []
    else if ks[0] in seen then
      var r := FirstNew(seen, ks[1..]);
      SubsequenceOfTail(r, ks);
      assert forall x :: x in ks <==> x == ks[0] || x in ks[1..];
      r
    else
      var rest := FirstNew(seen + [ks[0]], ks[1..]);
      SubsequenceOfTail(rest, ks);
      assert forall x :: x in ks <==> x == ks[0] || x in ks[1..];
      assert ks[0] in seen + [ks[0]];
      assert forall j :: 0 <= j < |rest| ==> rest[j] in rest;
      [ks[0]] + rest
  }

  /** One step of `FirstNew`: a seen key is skipped, a new one is taken and marked seen. */
  lemma FirstNewStep(seen: seq<Value>, ks: seq<Value>)
    requires |ks| > 0
    ensures ks[0] in seen ==> FirstNew(seen, ks) == FirstNew(seen, ks[1..])
    ensures ks[0] !in seen ==> FirstNew(seen, ks) == [ks[0]] + FirstNew(seen + [ks[0]], ks[1..])
  {
  }

  /** Storing an existing key leaves the keys as they are. */
  lemma StoreKeepsKeys(d: Hash, k: Value, v: Value)
    requires HasKey(d, k)
    ensures Keys(Store(d, k, v)) == Keys(d)
  {
  }

  /** Storing a new key appends it to the keys. */
  lemma StoreAddsKey(d: Hash, k: Value, v: Value)
    requires !HasKey(d, k)
    ensures Keys(Store(d, k, v)) == Keys(d) + [k]
  {
  }

  /**
   The receiver's keys keep their positions, and the new keys follow, each
   once, in the order the pairs first name them.
   */
  lemma {:induction false} StoreAllOrder(d: Hash, pairs: seq<Entry>)
    requires Valid(d)
    ensures forall i :: 0 <= i < |d| ==> StoreAll(d, pairs)[i].0 == d[i].0
    ensures Keys(StoreAll(d, pairs))[|d|..] == FirstNew(Keys(d), Keys(pairs))
    decreases |pairs|
  {
    StoreAllPositions(d, pairs);
    if |pairs| == 0 {
      assert Keys(StoreAll(d, pairs))[|d|..] == [];
    } else {
      var d' := Store(d, pairs[0].0, pairs[0].1);
      StoreAllOrder(d', pairs[1..]);
      KeysOfTail(pairs);
      if HasKey(d, pairs[0].0) {
        StoreKeepsKeys(d, pairs[0].0, pairs[0].1);
        assert StoreAll(d, pairs) == StoreAll(d', pairs[1..]) && |d'| == |d|;
      } else {
        StoreAddsKey(d, pairs[0].0, pairs[0].1);
        NewKeysStep(d, pairs);
      }
    }
  }

  /** Everything storing a sequence of pairs promises, in one place. */
  lemma StoreAllSummary(d: Hash, pairs: seq<Entry>)
    requires Valid(d)
    ensures forall k :: HasKey(StoreAll(d, pairs), k) <==> HasKey(d, k) || HasKey(pairs, k)
    ensures forall k :: !HasKey(pairs, k) ==> Lookup(StoreAll(d, pairs), k) == Lookup(d, k)
    ensures forall i :: 0 <= i < |pairs| && IsLastFor(pairs, i) ==> Lookup(StoreAll(d, pairs), pairs[i].0) == pairs[i].1
    ensures forall i :: 0 <= i < |d| ==> StoreAll(d, pairs)[i].0 == d[i].0
    ensures Keys(StoreAll(d, pairs))[|d|..] == FirstNew(Keys(d), Keys(pairs))
  {
    forall k
      ensures HasKey(StoreAll(d, pairs), k) <==> HasKey(d, k) || HasKey(pairs, k)
    {
      StoreAllKeys(d, pairs, k);
    }
    forall k | !HasKey(pairs, k)
      ensures Lookup(StoreAll(d, pairs), k) == Lookup(d, k)
    {
      StoreAllKeepsOthers(d, pairs, k);
    }
    forall i | 0 <= i < |pairs| && IsLastFor(pairs, i)
      ensures Lookup(StoreAll(d, pairs), pairs[i].0) == pairs[i].1
    {
      StoreAllLastWins(d, pairs, i);
    }
    StoreAllOrder(d, pairs);
  }

  /** Storing pairs whose keys are all new, and distinct, appends them in order. */
  lemma {:induction false} StoreAllFresh(d: Hash, pairs: seq<Entry>)
    requires Valid(d) && Valid(pairs)
    requires forall i :: 0 <= i < |pairs| ==> !HasKey(d, pairs[i].0)
    ensures StoreAll(d, pairs) == d + pairs
    decreases |pairs|
  {
    if |pairs| > 0 {
      var d' := d + [pairs[0]];
      FreshStep(d, pairs);
      StoreAllFresh(d', pairs[1..]);
      AppendHead(d, pairs);
    }
  }

  lemma FreshStep(d: Hash, pairs: seq<Entry>)
    requires Valid(d) && Valid(pairs) && |pairs| > 0
    requires forall i :: 0 <= i < |pairs| ==> !HasKey(d, pairs[i].0)
    ensures Valid(d + [pairs[0]]) && Valid(pairs[1..])
    ensures StoreAll(d, pairs) == StoreAll(d + [pairs[0]], pairs[1..])
    ensures forall i :: 0 <= i < |pairs[1..]| ==> !HasKey(d + [pairs[0]], pairs[1..][i].0)
  {
    var d' := d + [pairs[0]];
    assert Store(d, pairs[0].0, pairs[0].1) == d';
    assert Keys(d') == Keys(d) + [pairs[0].0];
    assert forall i :: 0 <= i < |pairs[1..]| ==> pairs[1..][i] == pairs[i + 1];
  }
}
