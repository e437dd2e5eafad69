/**
 * Stashmap: an insertion-ordered map. An unordered key -> value table is kept
 * in step with an array of the keys in the order they were first set, and a
 * counter of live entries.
 */
module Stashmap {
  import opened Wrappers
  import opened Arrays

  /** The key order after `set(k, _)`: a new key goes to the end, a present key keeps its place. */
  function AppendNew(keys: seq<string>, k: string): (r: seq<string>)
    ensures k in r
    ensures |r| == if k in keys then |keys| else |keys| + 1
    ensures r[..|keys|] == keys
  {
    if k in keys then keys else keys + [k]
  }

  /** The key order of an empty map after `set(ks[0], _)`, ..., `set(ks[|ks| - 1], _)`. */
  function InsertionOrder(ks: seq<string>): (r: seq<string>)
    ensures |r| <= |ks|
    ensures forall k :: k in r ==> k in ks
  {
    if ks == [] then [] else AppendNew(InsertionOrder(ks[..|ks| - 1]), ks[|ks| - 1])
  }

  /** The key order holds every key that was ever set, each exactly once. */
  lemma {:induction false} InsertionOrderKeys(ks: seq<string>)
    ensures Distinct(InsertionOrder(ks))
    ensures forall k :: k in InsertionOrder(ks) <==> k in ks
  {
    if ks != [] {
      var init, last := ks[..|ks| - 1], ks[|ks| - 1];
      InsertionOrderKeys(init);
      assert ks == init + [last];
    }
  }

  /** Setting distinct keys one after another lists them in exactly that order. */
  lemma {:induction false} InsertionOrderOfDistinct(ks: seq<string>)
    requires Distinct(ks)
    ensures InsertionOrder(ks) == ks
  {
    if ks != [] {
      var init, last := ks[..|ks| - 1], ks[|ks| - 1];
      assert Distinct(init) by {
        forall a, b | 0 <= a < b < |init| ensures init[a] != init[b] {
          assert init[a] == ks[a] && init[b] == ks[b];
        }
      }
      forall a | 0 <= a < |init| ensures init[a] != last {
        assert init[a] == ks[a] && last == ks[|ks| - 1];
      }
      assert last !in init;
      InsertionOrderOfDistinct(init);
      assert ks == init + [last];
    }
  }

  /** Setting a key again, to whatever value, does not change the key order. */
  lemma OverwriteKeepsOrder(ks: seq<string>, k: string)
    requires k in ks
    ensures InsertionOrder(ks + [k]) == InsertionOrder(ks)
  {
    InsertionOrderKeys(ks);
    assert (ks + [k])[..|ks|] == ks;
  }

  /** Every key of `r` stands before the keys that follow it in `r` in its first occurrence in `ks`. */
  predicate FirstSeenOrder(r: seq<string>, ks: seq<string>) {
    forall i, j :: 0 <= i < j < |r| ==> IndexOf(ks, r[i]) < IndexOf(ks, r[j])
  }

  /** Keys appear in the order of their first insertion. */
  lemma {:induction false} InsertionOrderFirstSeen(ks: seq<string>)
    ensures FirstSeenOrder(InsertionOrder(ks), ks)
  {
    if ks != [] {
      var init, last := ks[..|ks| - 1], ks[|ks| - 1];
      var prev := InsertionOrder(init);
      var r := InsertionOrder(ks);
      assert r == AppendNew(prev, last);
      InsertionOrderFirstSeen(init);
      InsertionOrderKeys(init);
      assert ks == init + [last];
      forall i, j | 0 <= i < j < |r| ensures IndexOf(ks, r[i]) < IndexOf(ks, r[j]) {
        assert r[i] == prev[i] && r[i] in init;
        IndexOfExtended(init, last, r[i]);
        if j < |prev| {
          assert r[j] == prev[j] && r[j] in init;
          IndexOfExtended(init, last, r[j]);
        } else {
          assert r[j] == last && last !in init;
          IndexOfAppended(init, last);
        }
      }
    }
  }

  /** The map itself: `m` is the lookup table, `keys` the insertion order and `length` the entry count. */
  class Map<V> {
    var m: map<string, V>
    var keys: seq<string>
    var length: int

    /** The representation invariant: the counter matches the order, the order has no
        duplicates, and the order lists exactly the keys of the table. */
    ghost predicate Valid()
      reads this
    {
      && length == |keys|
      && Distinct(keys)
      && (forall k :: k in m <==> k in keys)
    }

    /** `new Stashmap()`: an empty map; any argument is ignored. */
    constructor ()
      ensures Valid()
      ensures m == map[] && keys == [] && length == 0
    {
      new;
      Wipe();
      length := 0;
    }

    /** Resets to the empty map, whatever the prior state. */
    method Wipe()
      modifies this
      ensures Valid()
      ensures m == map[] && keys == [] && length == 0
    {
      m := map[];
      keys := [];
      length := 0;
    }

    /** Stores `v` under `k`; a new key is appended to the order. Returns the map for chaining. */
    method Set(k: string, v: V) returns (self: Map<V>)
      requires Valid()
      modifies this
      ensures self == this
      ensures Valid()
      ensures m == old(m)[k := v]
      ensures keys == AppendNew(old(keys), k)
      ensures length == if k in old(m) then old(length) else old(length) + 1
      ensures Get(k) == Some(v)
    {
      if !Has(k) {
        length := length + 1;
        keys := keys + [k];
      }
      m := m[k := v];
      self := this;
    }

    /** A synonym for `Set`. */
    method Add(k: string, v: V) returns (self: Map<V>)
      requires Valid()
      modifies this
      ensures self == this
      ensures Valid()
      ensures m == old(m)[k := v]
      ensures keys == AppendNew(old(keys), k)
      ensures length == if k in old(m) then old(length) else old(length) + 1
      ensures Get(k) == Some(v)
    {
      self := Set(k, v);
    }

    /** Deletes the entry of `k`, if any, and reports whether there was one. */
    method Remove(k: string) returns (removed: bool)
      requires Valid()
      modifies this
      ensures Valid()
      ensures removed <==> k in old(keys)
      ensures m == old(m) - {k}
      ensures !Has(k)
      ensures removed ==> length == old(length) - 1
      ensures removed ==> exists i :: 0 <= i < |old(keys)| && old(keys)[i] == k
                                   && keys == old(keys)[..i] + old(keys)[i + 1..]
      ensures !removed ==> keys == old(keys) && length == old(length)
    {
      if k in m {
        length := length - 1;
        m := m - {k};
        SpliceIndexOf(keys, k);
        keys := Splice(keys, IndexOf(keys, k));
        return true;
      }
      return false;
    }

    /** The value stored under `k`, or none. */
    function Get(k: string): (r: Option<V>)
      reads this
      requires Valid()
      ensures r.Some? <==> k in keys
      ensures r.Some? ==> k in m && r.value == m[k]
    {
      if k in m then Some(m[k]) else None
    }

    /** The value whose key stands at position `pos` of the insertion order, or none out of range. */
    function GetAt(pos: int): (r: Option<V>)
      reads this
      requires Valid()
      ensures 0 <= pos < |keys| ==> r.Some? && r == Get(keys[pos])
      ensures !(0 <= pos < |keys|) ==> r == None
    {
      if 0 <= pos < |keys| && keys[pos] in m then Some(m[keys[pos]]) else None
    }

    /** Whether `k` has an entry. */
    function Has(k: string): (b: bool)
      reads this
      requires Valid()
      ensures b <==> k in keys
      ensures b <==> Get(k).Some?
    {
      k in m
    }

    /** A copy of the insertion order (a value: changing it cannot change the map). */
    function GetKeys(): (r: seq<string>)
      reads this
      requires Valid()
      ensures r == keys
      ensures |r| == length && Distinct(r)
      ensures forall k :: k in r <==> Has(k)
    {
      keys
    }

    /** The values, one per key, in insertion order. */
    method GetValues() returns (result: seq<V>)
      requires Valid()
      ensures |result| == |keys|
      ensures forall i :: 0 <= i < |keys| ==> Get(keys[i]) == Some(result[i])
    {
      result := [];
      for i := 0 to |keys|
        invariant |result| == i
        invariant forall j :: 0 <= j < i ==> Get(keys[j]) == Some(result[j])
      {
        var x := Get(keys[i]);
        result := result + [x.value];
      }
    }

    /** The calls `forEach(fn)` makes, in order: one `fn(value, key)` per entry, in insertion order. */
    method ForEach() returns (calls: seq<(V, string)>)
      requires Valid()
      ensures |calls| == |keys|
      ensures forall i :: 0 <= i < |keys| ==> calls[i].1 == keys[i] && Get(keys[i]) == Some(calls[i].0)
    {
      calls := [];
      for i := 0 to |keys|
        invariant |calls| == i
        invariant forall j :: 0 <= j < i ==> calls[j].1 == keys[j] && Get(keys[j]) == Some(calls[j].0)
      {
        calls := calls + [(m[keys[i]], keys[i])];
      }
    }
  }
}
