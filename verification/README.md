# reactive_extensions in Dafny

A model of the Hash and Array extensions of the Ruby gem `reactive_extensions`,
with proofs of what they promise:

- key filtering on a Hash: `clean` (aliases `not`, `except`), `only`,
  `standardize` and their destructive `!` forms;
- key conversion: `symbolize_keys`, `stringify_keys` and their `!` forms;
- set comparisons: `Hash#subset_of?` / `superset_of?` (defined identically in
  two files, modelled once) and `Array#subset_of?` / `superset_of?`;
- selection from an array of hashes: `Array#scope` and `Array#where_not`;
- hash arithmetic: `Hash#+` and `Hash#-`.

Ruby objects are one datatype, `Values.Value`: nil, booleans, integers,
strings, symbols, arrays and hashes. A Hash is its sequence of entries in
insertion order; `Hashes.Valid` says that no two entries share a key, and
`Lookup`/`Store`/`Delete` give `hash[k]`, `hash[k] = v` and `hash.delete(k)`.
A raised exception is a value: `Result` is `Ok(value)` or `Raise(error)`, and
an error is an `ArgumentError` carrying its exact message or a
`NoMethodError` naming the missing method and the receiver. The in-place
methods work on a mutable `Destructive.HashObject`. Each of them is proved to
leave the receiver in the state that a pure function of Sanitation or
KeyNormalization describes.

Where the code and its documentation comments disagree, the model follows
the code:

- `clean!` is documented as non-destructive but calls `reject!`, so it
  changes the receiver.
- `Hash#+` is documented to raise ArgumentError for a non-Hash argument. It
  does no type check: it calls `each` on the argument. So an Array argument
  is merged element by element. Of the other value kinds modelled (nil,
  booleans, integers, strings and symbols) none has `each`, so each of them
  raises NoMethodError for `each`.
- One documented example of `Hash#-` gives `{:foo => 'bar'} - {:norf => :raboo}`
  as `{:foo => 'bar'}`. The code first checks `superset_of?`, which fails for
  this pair, so it raises ArgumentError (`SubtractNonSubsetExample`).
- `symbolize_keys` has no `rescue`, so a key without `to_sym` (an integer,
  say) raises NoMethodError. `symbolize_keys!` rescues and keeps such a key.
- `standardize` and `standardize!` name different receivers in their error
  message: `standardize` names the receiver as it was, and `standardize!`
  names the receiver already trimmed by `only!(kees)`.
- `symbolize_keys` and `symbolize_keys!` can disagree when two keys
  collide. They disagree when a key comes before the key it converts to:
  for `{"a" => 1, :a => 2}` the copy keeps the later value, 2, and the
  in-place loop keeps 1 (`SymbolizeCollisionExample`). They agree when the
  converted key comes first: both give `{:a => 1}` for `{:a => 2, "a" => 1}`
  (`SymbolizeCollisionAgreeExample`).

## Model

| member | source | states |
|---|---|---|
| Hashes.Lookup | lib/reactive_extensions/object/sets.rb:19 | `hash[key]` is nil for an absent key (the hash has no default), otherwise the value of an entry with that key, and in a valid hash the value of every entry with that key |
| Hashes.Store | lib/reactive_extensions/addition.rb:16 | `dup[key] = value` replaces the value of an existing key in place and appends a new key at the end; the hash stays valid, the key now maps to the value and every other key keeps its value |
| Hashes.Delete | lib/reactive_extensions/keys.rb:50 | `delete(key)` removes the key's one entry (nothing changes when it is absent), keeps the other entries in their order, keeps the hash valid and leaves every other key and value alone |
| Hashes.StoreAll | lib/reactive_extensions/addition.rb:16 | storing a sequence of pairs one by one keeps the hash valid and adds at most one entry per pair |
| Hashes.StoreAllKeys | lib/reactive_extensions/addition.rb:16 | after storing the pairs, the keys are exactly the original keys plus the pairs' keys |
| Hashes.StoreAllKeepsOthers | lib/reactive_extensions/addition.rb:16 | a key none of the pairs names keeps its original value |
| Hashes.StoreAllLastWins | lib/reactive_extensions/addition.rb:16 | a key maps to the value of the last pair that names it |
| Hashes.StoreAllOrder | lib/reactive_extensions/addition.rb:16 | the original keys keep their positions, and the new keys follow, each once, in the order the pairs first name them (`Hashes.FirstNew`), also when the pairs repeat a key |
| Hashes.FirstNew | lib/reactive_extensions/addition.rb:16 | the reference order for new keys: exactly the keys not already present, without repeats, in the order of their first occurrence |
| Hashes.StoreAllFresh | lib/reactive_extensions/addition.rb:16 | storing pairs with new, distinct keys is appending them |
| Values.EscapeInterpolationExample | lib/reactive_extensions/hash/sanitation.rb:131 | in the message's `inspect` text, `"a#{b"` is written with its `#` escaped |
| Values.LoneHashExample | lib/reactive_extensions/hash/sanitation.rb:131 | a `#` not followed by `{`, `$` or `@` is written as it is |
| Sanitation.Clean | lib/reactive_extensions/hash/sanitation.rb:32-35 | `clean` keeps exactly the entries whose key is not a bad key, in their original order, and keeps the hash valid |
| Sanitation.CleanLookup | lib/reactive_extensions/hash/sanitation.rb:32-35 | after `clean` a bad key is absent and looks up nil; every other key is present and keeps its value exactly when it was present before |
| Sanitation.CleanAbsentKeys | lib/reactive_extensions/hash/sanitation.rb:15-17 | when none of the bad keys is present, `clean` returns a hash equal to the receiver |
| Sanitation.CleanAllKeys | lib/reactive_extensions/hash/sanitation.rb:27 | `clean` of every key of the receiver is `{}` |
| Sanitation.CleanAppend | lib/reactive_extensions/hash/sanitation.rb:33 | `clean` decides entry by entry, so it distributes over concatenation |
| Sanitation.Only | lib/reactive_extensions/hash/sanitation.rb:82-84 | `only` keeps exactly the entries whose key is requested, in their original order; every key it keeps is requested and the hash stays valid |
| Sanitation.OnlyLookup | lib/reactive_extensions/hash/sanitation.rb:82-84 | after `only` a key is present exactly when it was present and requested, and then keeps its value; everything else looks up nil |
| Sanitation.OnlyAbsentKeys | lib/reactive_extensions/hash/sanitation.rb:69-71 | when none of the requested keys is present, `only` returns `{}` |
| Sanitation.OnlyKeepsWithin | lib/reactive_extensions/hash/sanitation.rb:83 | `only` leaves a hash whose keys are all requested equal to itself |
| Sanitation.OnlyIdempotent | lib/reactive_extensions/hash/sanitation.rb:82-84 | applying `only` a second time with the same keys changes nothing |
| Sanitation.CleanOnlySplit | lib/reactive_extensions/hash/sanitation.rb:32-84 | `clean` and `only` with the same keys split the receiver's entries between them, entry for entry |
| Sanitation.FillMissingTolerant | lib/reactive_extensions/hash/sanitation.rb:129-134 | without `:errors` the loop of `standardize` never raises and only appends: the entries already there keep their places |
| Sanitation.FillMissing | lib/reactive_extensions/hash/sanitation.rb:129-134 | the `kees.each` loop of `standardize` raises only with `:errors`, and then an ArgumentError. When it returns, the hash is valid and no smaller, keeps every key it had, and has every key of `kees` |
| Sanitation.MissingKeyError | lib/reactive_extensions/hash/sanitation.rb:131 | the error `standardize` raises (and `standardize!` at sanitation.rb:166) is an ArgumentError whose message starts with the receiver's `inspect` text and ends with the missing key's `to_s` |
| Sanitation.FillMissingTolerantKey | lib/reactive_extensions/hash/sanitation.rb:129-134 | without `:errors` the loop adds exactly the missing keys, bound to nil, and keys already there keep their values |
| Sanitation.FillMissingStrict | lib/reactive_extensions/hash/sanitation.rb:129-134 | with `:errors` the loop raises exactly when some key is missing, with the message naming the first missing key, and otherwise returns the hash unchanged |
| Sanitation.Standardize | lib/reactive_extensions/hash/sanitation.rb:125-137 | tolerant: never raises, and the result's keys are exactly the requested keys, with the receiver's values where it had them and nil elsewhere. Strict: raises `"#{self} is missing required key #{key}"` for the first missing key exactly when a key is missing, and otherwise returns `only(kees)`. The result's keys are the receiver's requested keys in the receiver's order, then the missing ones in the order `kees` first names them |
| Sanitation.FillMissingOrder | lib/reactive_extensions/hash/sanitation.rb:129-134 | without `:errors` the loop appends the missing keys in the order `kees` first names them |
| Sanitation.LoopOnTrimmed | lib/reactive_extensions/hash/sanitation.rb:164-169 | once the receiver holds only requested keys, each turn of the `standardize!` loop does what a turn of the `standardize` loop does, and in strict mode it raises exactly when `standardize` would |
| Sanitation.StandardizeInPlaceLoop | lib/reactive_extensions/hash/sanitation.rb:164-169 | the `kees.each` loop of `standardize!` leaves the receiver a valid hash, and raises only with `:errors`, and then an ArgumentError |
| Sanitation.StandardizeInPlace | lib/reactive_extensions/hash/sanitation.rb:161-172 | `standardize!` as written: with at least one key, the receiver ends where `standardize` ends (tolerant), or trimmed to the requested keys and raising exactly when `standardize` raises (strict). The strict error is the ArgumentError for the first missing key, and its message names the receiver as trimmed by `only!`, not as it was. With no keys the receiver is left unchanged |
| Sanitation.StandardizeInPlaceIgnoresEmptyKeyList | lib/reactive_extensions/hash/sanitation.rb:164-165 | with no keys `standardize!` leaves `{:foo => 'bar'}` unchanged, while `standardize` returns `{}` |
| Sanitation.StandardizeInPlaceFixed | lib/reactive_extensions/hash/sanitation.rb:139-144 | `standardize!` as documented: for every key list, including the empty one, the receiver ends where `standardize` ends; a strict call raises the ArgumentError for the first missing key, naming the trimmed receiver |
| Sets.EachMatches | lib/reactive_extensions/object/sets.rb:19 | the `each` loop of `Hash#subset_of?` returns true exactly when every pair `(k, v)` of the receiver has `other[k] == v` |
| Sets.HashSubsetOf | lib/reactive_extensions/object/sets.rb:17-21 | `Hash#subset_of?` raises ArgumentError with its exact message exactly when the argument is not a Hash; otherwise it answers whether every pair of the receiver is matched in the argument |
| Sets.HashSupersetOf | lib/reactive_extensions/object/sets.rb:37-40 | `Hash#superset_of?` raises its own ArgumentError exactly when the argument is not a Hash; otherwise it answers whether every pair of the argument is matched in the receiver |
| Sets.SupersetMirrorsSubset | lib/reactive_extensions/sets.rb:37-40 | `a.superset_of?(b)` equals `b.subset_of?(a)` for every pair of hashes |
| Sets.EmptyIsSubset | lib/reactive_extensions/sets.rb:17-21 | `{}` is a subset of every hash, and every hash is a superset of `{}` |
| Sets.SubsetReflexive | lib/reactive_extensions/object/sets.rb:17-21 | every hash is a subset of itself |
| Sets.NilPairMatchesAbsentKey | lib/reactive_extensions/object/sets.rb:19 | a pair bound to nil counts as matched by a hash that lacks its key |
| Sets.SubsetIsPairContainment | lib/reactive_extensions/sets.rb:19 | when no value of the receiver is nil, `subset_of?` is plain containment of pairs |
| Sets.OnlyIsSubset | lib/reactive_extensions/hash/sanitation.rb:82-84 | the result of `only` is always a subset of the receiver |
| Sets.EachIncluded | lib/reactive_extensions/object/sets.rb:59 | the `each` loop of `Array#subset_of?` returns true exactly when every element is included in the argument |
| Sets.ArraySubsetOf | lib/reactive_extensions/object/sets.rb:57-61 | `Array#subset_of?` raises its ArgumentError exactly when the argument is not an Array; otherwise it answers whether the receiver's elements form a subset of the argument's |
| Sets.ArraySupersetOf | lib/reactive_extensions/object/sets.rb:76-79 | `Array#superset_of?` raises its ArgumentError exactly when the argument is not an Array; otherwise it answers whether the argument's elements all occur in the receiver |
| Sets.ArraySupersetMirrorsSubset | lib/reactive_extensions/object/sets.rb:78 | `a.superset_of?(b)` equals `b.subset_of?(a)` for every pair of arrays |
| Sets.ArraySubsetBasics | lib/reactive_extensions/object/sets.rb:57-61 | `[]` is a subset of every array, and every array is a subset of itself |
| Sets.ArraySubsetIgnoresOrderAndMultiplicity | lib/reactive_extensions/object/sets.rb:59 | reordering or repeating elements on either side does not change the answer |
| Addition.Plus | lib/reactive_extensions/addition.rb:14-18 | for a Hash or an Array argument, over the pairs `each` yields: the key set is the union, the last pair naming a key gives its value, keys no pair names keep the receiver's values, the receiver's keys keep their order and new keys follow in first-named order. With a valid Hash every entry's value wins. Any other argument raises NoMethodError for `each` |
| Addition.BlockPair | lib/reactive_extensions/addition.rb:16 | an Array element spread over the block's `key, value` parameters gives its first two elements, with nil for the missing ones and extra elements dropped; any other element is the key, with value nil |
| Addition.Yielded | lib/reactive_extensions/addition.rb:16 | `hash.each` yields a Hash's entries as they are, and an Array's elements one pair each, in order, each spread by `BlockPair` |
| Addition.PlusEmpty | lib/reactive_extensions/addition.rb:14-18 | `a + {}` is `a` |
| Addition.PlusDisjoint | lib/reactive_extensions/addition.rb:3-5 | with no shared key, `a + b` is `a`'s pairs followed by `b`'s |
| Addition.PlusArrayOfPairs | lib/reactive_extensions/addition.rb:16 | adding an array of two-element arrays is adding the hash of those pairs |
| Addition.PlusNonPairElements | lib/reactive_extensions/addition.rb:16 | elements that are not pairs are merged too: `{} + [1, [2], [3, 4, 5]]` is `{1 => nil, 2 => nil, 3 => 4}` |
| Addition.RepeatedKeysExample | lib/reactive_extensions/addition.rb:16 | with an array that names `:x` twice, `{} + [[:x, 1], [:y, 2], [:x, 3]]` is `{:x => 3, :y => 2}`: `:x` keeps its first place and takes its last value |
| Addition.AppendExample | lib/reactive_extensions/addition.rb:11 | `{:foo => 'bar'} + {:baz => :qux}` is `{:foo => 'bar', :baz => :qux}` |
| Addition.StringArgumentExample | lib/reactive_extensions/addition.rb:12 | `{:foo => 'bar'} + 'Hello'` raises NoMethodError for `each`, where the comment promises ArgumentError |
| Subtraction.Minus | lib/reactive_extensions/hash/subtraction.rb:16-19 | `a - other` raises the ArgumentError of `superset_of?` when the argument is not a Hash. It raises "Hash can only be subtracted from its superset" exactly when some pair of the argument is not matched in `a`. Otherwise it keeps exactly `a`'s entries whose key the argument lacks, in order |
| Subtraction.MinusIsSubMap | lib/reactive_extensions/hash/subtraction.rb:18 | a difference has none of the argument's keys and is a subset of the receiver |
| Subtraction.MinusSelf | lib/reactive_extensions/hash/subtraction.rb:16-19 | `a - a` is `{}` |
| Subtraction.PlusMinusRoundTrip | lib/reactive_extensions/hash/subtraction.rb:16-19 | with no shared key, `(a + b) - b` is `a` |
| Subtraction.MergeExample | lib/reactive_extensions/addition.rb:14-18 | `{foo: 'bar', baz: 'qux'} + {baz: 'zap'}` is `{foo: 'bar', baz: 'zap'}` |
| Subtraction.SubtractExample | lib/reactive_extensions/hash/subtraction.rb:11 | `{:foo => 'bar', :baz => :qux} - {:baz => :qux}` is `{:foo => 'bar'}` |
| Subtraction.SubtractNonSubsetExample | lib/reactive_extensions/hash/subtraction.rb:12-17 | `{:foo => 'bar'} - {:norf => :raboo}` raises "Hash can only be subtracted from its superset", because the argument is not a subset |
| KeyNormalization.Rebuild | lib/reactive_extensions/keys.rb:29-31 | the `each` loop of the copying forms raises NoMethodError for the first key without the conversion method exactly when there is one; otherwise it stores the converted pairs in order |
| KeyNormalization.NormalizeKeys | lib/reactive_extensions/keys.rb:71-75 | the copying form raises (never for `to_s`) exactly when some key lacks the conversion method, naming the first. Otherwise the result is valid and no larger than the receiver. Its keys are exactly the converted keys, and each maps to the value of the last key that converts to it |
| KeyNormalization.SymbolizeKeys | lib/reactive_extensions/keys.rb:28-32 | `symbolize_keys` raises exactly when some key is neither a string nor a symbol; otherwise every key of the result is a symbol |
| KeyNormalization.StringifyKeys | lib/reactive_extensions/keys.rb:71-75 | `stringify_keys` never raises, and every key of the result is a string |
| KeyNormalization.NormalizeKeysInjective | lib/reactive_extensions/keys.rb:13-15 | when no two keys convert to the same key, the copy is the receiver with every key converted, in the same order |
| KeyNormalization.Rotate | lib/reactive_extensions/keys.rb:49-51 | the `keys.each` loop of the `!` forms keeps the hash valid |
| KeyNormalization.NormalizeKeysInPlace | lib/reactive_extensions/keys.rb:48-54 | `symbolize_keys!` / `stringify_keys!` leave a valid hash |
| KeyNormalization.RotateKeys | lib/reactive_extensions/keys.rb:49-51 | after the loop, the keys are the converted keys of every visited key plus the keys it never visited |
| KeyNormalization.InPlaceKeys | lib/reactive_extensions/keys.rb:48-54 | the `!` forms end with exactly the converted keys of the receiver, the same key set the copying forms produce |
| KeyNormalization.RotateKeepsUnconvertible | lib/reactive_extensions/keys.rb:50 | a key without the conversion method is put back by `rescue key` and keeps its value through the whole loop |
| KeyNormalization.InPlaceKeepsUnconvertible | lib/reactive_extensions/keys.rb:48-54 | after `symbolize_keys!` a key without `to_sym` is still present with its value |
| KeyNormalization.InPlaceAgreesWithCopy | lib/reactive_extensions/keys.rb:34-36 | without collisions, the `!` forms leave the receiver equal to what the copying forms return |
| KeyNormalization.InPlaceInjective | lib/reactive_extensions/keys.rb:48-54 | when no two keys convert to the same key, the `!` forms leave exactly the receiver with every key converted where it stands, a key without the conversion method staying as it is |
| KeyNormalization.InPlaceMixedExample | lib/reactive_extensions/keys.rb:48-54 | `{1 => :x, "b" => 2}.symbolize_keys!` leaves `{1 => :x, :b => 2}` |
| KeyNormalization.StringifyAfterSymbolize | lib/reactive_extensions/keys.rb:71-75 | for a hash with only string keys, `stringify_keys(symbolize_keys(h))` is `h` |
| KeyNormalization.SymbolizeAfterStringify | lib/reactive_extensions/keys.rb:28-32 | for a hash with only symbol keys, `symbolize_keys(stringify_keys(h))` is `h` |
| KeyNormalization.SymbolizeCollisionExample | lib/reactive_extensions/keys.rb:28-54 | for `{"a" => 1, :a => 2}`, `symbolize_keys` gives `{:a => 2}` and `symbolize_keys!` gives `{:a => 1}` |
| KeyNormalization.ConvertedIdempotent | lib/reactive_extensions/keys.rb:50 | converting an already converted key changes nothing |
| KeyNormalization.Converted | lib/reactive_extensions/keys.rb:50 | the `!` forms' rescued `to_sym` (and `to_s` at keys.rb:93; the copying forms' `k.to_sym` and `k.to_s` at keys.rb:30 and :73 where the method exists): the key's `to_s` text is kept, `to_s` always gives a string, `to_sym` gives a symbol for strings and symbols, and a key without the method stays as it is |
| KeyNormalization.SymbolizeCollisionAgreeExample | lib/reactive_extensions/keys.rb:28-54 | for `{:a => 2, "a" => 1}`, `symbolize_keys` and `symbolize_keys!` both give `{:a => 1}` |
| Scoping.Scope | lib/reactive_extensions/scope.rb:34-36 | `scope` keeps, in order and with their multiplicity, exactly the hashes whose value at the key is one of the values |
| Scoping.WhereNot | lib/reactive_extensions/scope.rb:59-61 | `where_not` keeps, in order and with their multiplicity, exactly the hashes whose value at the key is none of the values |
| Scoping.Matches | lib/reactive_extensions/scope.rb:35 | `hash[key].in?(values)` (also at scope.rb:60): a hash without the key matches exactly when nil is one of the values, and a hash with it matches exactly when the key's value is one of them |
| Scoping.ScopePartition | lib/reactive_extensions/scope.rb:38-40 | `where_not` is the inverse of `scope`: together they split the array, hash for hash |
| Scoping.ScopeMissingKey | lib/reactive_extensions/scope.rb:35 | a hash lacking the key is in the scope exactly when nil is one of the values, and in `where_not` otherwise |
| Scoping.ScopeNoValues | lib/reactive_extensions/scope.rb:34-36 | with no values, `scope` selects nothing and `where_not` keeps everything |
| Scoping.ScopeIdempotent | lib/reactive_extensions/scope.rb:34-36 | scoping a scope again by the same condition changes nothing |
| Destructive.HashObject.CleanBang | lib/reactive_extensions/hash/sanitation.rb:61-64 | `clean!` leaves the receiver equal to `clean` of its old state and returns the receiver |
| Destructive.HashObject.OnlyBang | lib/reactive_extensions/hash/sanitation.rb:99-102 | `only!` leaves the receiver equal to `only` of its old state and returns the receiver |
| Destructive.HashObject.StandardizeBang | lib/reactive_extensions/hash/sanitation.rb:161-172 | `standardize!` returns the receiver itself, and leaves it and returns or raises as `Sanitation.StandardizeInPlace` describes |
| Destructive.HashObject.StandardizeLoop | lib/reactive_extensions/hash/sanitation.rb:164-169 | the in-place loop, with its `only!` on every turn, computes what `Sanitation.StandardizeInPlaceLoop` describes |
| Destructive.HashObject.NormalizeKeysBang | lib/reactive_extensions/keys.rb:49-51 | the in-place loop over a snapshot of the keys leaves the receiver as `KeyNormalization.NormalizeKeysInPlace` describes |
| Destructive.HashObject.SymbolizeKeysBang | lib/reactive_extensions/keys.rb:48-54 | `symbolize_keys!` converts the receiver's keys in place and returns the receiver |
| Destructive.HashObject.StringifyKeysBang | lib/reactive_extensions/keys.rb:91-97 | `stringify_keys!` converts the receiver's keys in place and returns the receiver |

## Left out

- `flatten` of the key lists: `clean`, `only` and `standardize` take one flat list of keys, so nested arrays of keys are not modelled.
- `extract_options!`: the `:errors` option of `standardize` and `standardize!` is an explicit boolean argument, not a trailing options hash.
- `deep_dup`: values are immutable here, so a deep copy and the original cannot be told apart and copying is the identity.
- `===` in `Hash#subset_of?` is `==`. The two agree on the value kinds modelled; classes, ranges and regular expressions, whose `===` differs, are not modelled.
- `instance_of?` in the set methods: there are no subclasses of Hash or Array, so "is a Hash" and "is an instance of Hash" coincide.
- Equality of nested hashes is structural and sensitive to insertion order, while Ruby's `Hash#==` ignores order. This only matters for hashes stored as values or keys.
- `inspect` and `to_s` (used in the `standardize` error message) escape `"`, `\` and a `#` followed by `{`, `$` or `@`, and always print symbols as `:name`. Ruby's escapes for control and non-ASCII characters and its quoting of unusual symbols (`:"foo bar"`) are not modelled.
- Scoping.Scope: the array's elements are hashes. Other objects that respond to `[]` are not modelled.
- `Hash#+` and `Hash#-` with an argument that is a subclass or a Hash-like object are not modelled; the argument is a `Value`.
- `Hash#+` with another Enumerable argument (a Range, Set, Struct or Enumerator) is not modelled. Such an argument has `each`, so Ruby merges what it yields (`{} + (1..2)` is `{1 => nil, 2 => nil}`), but these objects are not values of the model.
- Hash default values, default procs (`Hash.new(0)`, `Hash.new { ... }`) and `compare_by_identity` are not modelled: every hash answers nil for an absent key and compares keys by value, as `eql?` does for the modelled kinds. A default would change what `subset_of?`, `scope`, `where_not` and, through `superset_of?`, `Hash#-` see for an absent key.
- String keys are not frozen or copied when stored; object identity is not modelled except for the receiver of the `!` methods.
- The `!` methods' contracts are stated with `old`, and only the receiver's state is compared. A raised exception leaves the receiver in the state it had when the exception was raised.
- KeyNormalization.NormalizeKeysInPlace: its own contract says only that the result is valid. What it computes is stated by `InPlaceKeys`, `InPlaceKeepsUnconvertible`, `InPlaceInjective` (exactly, whenever no keys collide), `InPlaceAgreesWithCopy`, `SymbolizeCollisionExample` and `SymbolizeCollisionAgreeExample`. With colliding keys, which value survives depends on the order of the keys, and only those two examples show it.
- KeyNormalization.Rotate: its own contract says only that the hash stays valid; `RotateKeys` and `RotateKeepsUnconvertible` state what the loop does.

## Findings

| source | as written | input that shows it | evidently intended | confidence | as-written member | corrected member |
|---|---|---|---|---|---|---|
| lib/reactive_extensions/hash/sanitation.rb:164-165 | `standardize!` trims the receiver with `only!(kees)` only inside the `kees.each` loop, so with no keys the receiver is never trimmed | `{:foo => 'bar'}.standardize!` leaves `{:foo => 'bar'}`, while `standardize` returns `{}` | the receiver keeps exactly the requested keys, as `standardize` does, so with no keys it becomes `{}` | not executed | Sanitation.StandardizeInPlaceIgnoresEmptyKeyList | Sanitation.StandardizeInPlaceFixed |
