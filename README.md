# Stashmap, modelled in Dafny

Stashmap is a small insertion-ordered map for JavaScript (`lib/stashmap.js`).
It keeps three fields in step:

- `map`: an unordered key → value table;
- `keys`: the keys in the order they were first set;
- `length`: the number of entries.

`set` (also called `add`), `remove` and `wipe` change these fields.
`get`, `has`, `getAt`, `getKeys`, `getValues` and `forEach` only read them.

The model is the class `Stashmap.Map<V>` (file `stashmap.dfy`). Its fields are
`m: map<string, V>`, `keys: seq<string>` and `length: int`. The object
invariant `Valid()` says three things:

- the counter equals `|keys|`;
- `keys` has no duplicates;
- `keys` lists exactly the keys of `m`.

Every mutator keeps `Valid()` and states its whole new state in terms of the
old one. The read operations are functions or loop methods. Their contracts tie
lookups, positions and traversals to the key order.

Choices made to fit the model:

- Keys are strings.
- The type `V` has no "undefined" member, so a lookup returns `Option<V>`.
  That makes presence exactly "the key is in the table".
- `Remove` keeps the source's own mechanism: `indexOf`, which gives -1 when the
  key is missing, then `splice(i, 1)`, where a negative start counts back from
  the end. Both are modelled in `arrays.dfy`, and a lemma proves that under
  the invariant they delete exactly the removed key.
- The key order that a run of `set` calls produces is a pure function,
  `InsertionOrder`. Lemmas prove that it has no duplicates, that it keeps the
  order of first insertion, and that overwriting a key does not move it. The
  client method `StashmapTests.SetAll` proves that a new map after those `Set`
  calls has exactly that key order, and that each key holds the value of its
  last `Set`.

Other files:

- `scenarios.dfy` replays the scenarios of `test/stashmap.test.js`.
- `as_written.dfy` models the table as a plain JavaScript object, to show the
  defects listed under Findings.

What this code does, and so what the model does:

- The constructor ignores its argument and always creates an empty map.
- `forEach` never stops early: it discards what the callback returns.
- There is no `merge` and no `map`.

The library's own tests at test/stashmap.test.js:16-36 and
test/stashmap.test.js:118-141 build maps from an object literal. Against this
constructor they fail: `get('b')` gives `undefined` and `forEach` makes no
calls. The scenarios here build those maps with `add` calls in the literal's
order instead.

No part of the model depends on I/O, clocks or randomness.

## Model

| member | source | states |
|---|---|---|
| `Arrays.IndexOf` | lib/stashmap.js:60 | `indexOf`: -1 exactly when the element is absent; otherwise the first position holding it |
| `Arrays.Splice` | lib/stashmap.js:60 | `splice(start, 1)`: a negative start counts back from the end and is clamped; one element is deleted at the clamped position if it is in range; the others keep their order |
| `Arrays.SpliceIndexOf` | lib/stashmap.js:57-60 | in a duplicate-free order, splicing at `indexOf(k)` of a present key deletes exactly `k`; the rest stays duplicate-free and in order |
| `Arrays.SpliceUndoesAppend` | lib/stashmap.js:32-64 | pushing a new key and then splicing it out at its `indexOf` gives back the original order |
| `Stashmap.InsertionOrder` | lib/stashmap.js:32-39 | the key order an empty map has after a run of `set` calls: no longer than the run, and holding only keys that were set |
| `Stashmap.AppendNew` | lib/stashmap.js:33-36 | the key order after a `set`: it contains the key; an absent key makes it one longer; the old order is kept as a prefix |
| `Stashmap.InsertionOrderKeys` | lib/stashmap.js:32-39 | after any run of `set` calls the order has no duplicates and contains exactly the keys that were set |
| `Stashmap.InsertionOrderOfDistinct` | lib/stashmap.js:32-39 | setting distinct keys k1..kn lists exactly [k1, ..., kn] |
| `Stashmap.OverwriteKeepsOrder` | lib/stashmap.js:32-39 | setting a key that is already present leaves the order unchanged |
| `Stashmap.InsertionOrderFirstSeen` | lib/stashmap.js:32-39 | keys in the order are sorted by the position of their first `set` |
| `Stashmap.Map.constructor` | lib/stashmap.js:9-14 | creates an empty, valid map: empty table, empty order, count 0 |
| `Stashmap.Map.Wipe` | lib/stashmap.js:19-23 | from any prior state: empty table, empty order, count 0, invariant holds |
| `Stashmap.Map.Set` | lib/stashmap.js:32-39 | keeps the invariant; the table maps `k` to `v` and nothing else changes; a new key is appended and the count rises by one; a present key keeps its position; `get(k)` is `v` afterwards; returns the receiver |
| `Stashmap.Map.Add` | lib/stashmap.js:48 | the same contract as `Set` (an alias) |
| `Stashmap.Map.Remove` | lib/stashmap.js:56-64 | returns true exactly when the key was present; `k` leaves the table and every other entry stays; on success the count drops by one and the single occurrence of `k` is cut out of the order; on failure the order and count are unchanged; `has(k)` is false afterwards |
| `Stashmap.Map.Get` | lib/stashmap.js:72-74 | a value exactly when the key is in the order, and that value is the stored one |
| `Stashmap.Map.GetAt` | lib/stashmap.js:82-84 | for a position inside the order it is `get(keys[pos])` and present; outside the order it is absent |
| `Stashmap.Map.Has` | lib/stashmap.js:92-94 | true exactly when the key is in the order, and exactly when `get` finds a value |
| `Stashmap.Map.GetKeys` | lib/stashmap.js:101-103 | the insertion order as a value: as long as the count, duplicate-free, holding exactly the keys `has` accepts |
| `Stashmap.Map.GetValues` | lib/stashmap.js:110-118 | one value per key, in order: element `i` is `get(keys[i])` |
| `Stashmap.Map.ForEach` | lib/stashmap.js:125-131 | one call per entry, in insertion order; call `i` passes `keys[i]` and its stored value |
| `StashmapTests.RemoveScenario` | test/stashmap.test.js:45-109 | after setting a, b, c, d to 1..4 and removing c: the count is 3, `get('b')` is 2, `getAt(2)` is 4, `has('c')` is false, `has('d')` is true; a second removal of c returns false |
| `StashmapTests.ConstructScenario` | test/stashmap.test.js:16-23 | for {a: 1, b: 2}, built with `add`: `get('b')` is 2, the count is 2 and the keys are [a, b] |
| `StashmapTests.ForEachScenario` | test/stashmap.test.js:118-141 | for {a: 1, b: 2}, built with `add`: `forEach` makes exactly two calls, (1, a) and then (2, b) |
| `StashmapTests.SetAll` | lib/stashmap.js:32-39 | a new map after `set(k0, v0)`, ..., `set(kn, vn)` is valid, its key order is `InsertionOrder([k0, ..., kn])`, and each key holds the value of its last `set` |
| `StashmapTests.SetThenRemove` | lib/stashmap.js:32-64 | setting an absent key and then removing it succeeds and restores the table, the order and the count |
| `AsWritten.Has` | lib/stashmap.js:92-94 | as written, on a plain-object table: an inherited name is always present; any other key is present exactly when it is an own property |
| `AsWritten.Set` | lib/stashmap.js:32-39 | as written: the value is always stored; the key is pushed and counted only when `has` said it was missing, so an inherited name is never pushed |
| `AsWritten.Remove` | lib/stashmap.js:56-64 | as written: succeeds exactly when `has` holds; on failure nothing changes; on success the own property goes and the count drops; a stored key is cut out at its `indexOf`, and a key missing from the order makes `splice(-1, 1)` drop the last key |
| `AsWritten.GetAt` | lib/stashmap.js:82-84 | as written: in range it reads the key's own property; out of range it reads the property "undefined". Only own properties are read: an in-range inherited name cannot occur, because the as-written `Set` never pushes one |
| `AsWritten.GetAtOutOfRangeReadsUndefinedKey` | lib/stashmap.js:82-84 | as written, an out-of-range `getAt` on a map holding the key "undefined" returns that key's value |
| `AsWritten.SetInheritedNameSkipsOrder` | lib/stashmap.js:32-39 | as written, `has('toString')` is true on an empty map, so `set('toString', v)` stores the value but records no key and no count, which breaks the invariant |
| `AsWritten.RemoveInheritedNameDropsLastKey` | lib/stashmap.js:56-64 | as written, `remove('toString')` on {a} returns true, sets the count to 0 and drops `a` from the order, yet `a` stays in the table; on an empty map it returns true and sets the count to -1 |
| `AsWritten.SetKeepsConsistentAwayFromInherited` | lib/stashmap.js:32-39 | as written, `set` of a key that is not an inherited name keeps the invariant and updates the order as the corrected map does |

## Findings

| source | as written | input that shows it | evidently intended | confidence | as-written member | corrected member |
|---|---|---|---|---|---|---|
| lib/stashmap.js:82-84 | an out-of-range position reads `undefined` from the key array, and that value is then used as the property name "undefined" | `set('undefined', 1)`, then `getAt(1)` returns 1 | an out-of-range position yields absent | high, not executed | `AsWritten.GetAtOutOfRangeReadsUndefinedKey` | `Stashmap.Map.GetAt` |
| lib/stashmap.js:92-94 | presence is a property read on a plain object, so names inherited from `Object.prototype` count as present | on a new map, `has('toString')` is true; `set('toString', 1)` then leaves `keys` empty and `length` at 0 | only stored entries count as present | high, not executed | `AsWritten.SetInheritedNameSkipsOrder` | `Stashmap.Map.Has` |
| lib/stashmap.js:56-64 | `remove` of an inherited name passes the presence test; `indexOf` gives -1 and `splice(-1, 1)` deletes the last key | `set('a', 1)`, then `remove('toString')` returns true, `length` becomes 0 and `keys` becomes [] while `a` stays in the table; on a new map, `remove('toString')` returns true and `length` becomes -1 | absent keys return false and change nothing | high, not executed | `AsWritten.RemoveInheritedNameDropsLastKey` | `Stashmap.Map.Remove` |

## Left out

- Construction from an existing object. The constructor ignores its argument and leaves a TODO at lib/stashmap.js:10. The test suite's maps built from object literals are built here with `add` calls.
- `merge` and `map`: neither exists in this code.
- Early stopping of `forEach` when the callback returns `false`: the code discards the callback's result.
- `toString`: a diagnostic string, built with number-to-string conversion and `join`.
- Stashmap.Map.ForEach: returns the sequence of `(value, key)` arguments it passes, instead of calling a function. The callback's own effects are not modelled. Neither is its `this`-binding through `context`, nor a callback that changes the map mid-traversal.
- The guard against an undefined key slot in `forEach` (lib/stashmap.js:127). Keys are strings, so the guard can never fire.
- JavaScript key coercion (`1` and `"1"` collide) and values equal to `undefined`. Keys are typed as strings and lookups return `Option<V>`, so both are ruled out by construction.
- The corrected model keeps the table free of inherited property names. The as-written behaviour appears only in `as_written.dfy`, and there only for a few inherited names. Other prototype properties and the special `__proto__` key are not modelled.
- Positions are integers. JavaScript's `getAt` accepts any number; a fractional position such as 1.5 reads `undefined` from the key array and then the property "undefined", like an out-of-range position.
- Clients writing the public `length` field directly: the model keeps the field private to its methods.
