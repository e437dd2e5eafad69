/**
 * The map's three fields as the JavaScript code actually keeps them, where the
 * table is a plain object `{}`. Reading a property of such an object finds, besides
 * its own properties, the names it inherits from `Object.prototype`, and a missing
 * array slot reads as `undefined`, which names the property "undefined". These
 * members model that behaviour only to exhibit where it departs from the map's
 * invariant; the rest of the project uses the corrected class `Stashmap.Map`.
 */
module AsWritten {
  import opened Wrappers
  import opened Arrays

  /** Names every plain object inherits from `Object.prototype` (a subset of them);
      reading one yields a function, never `undefined`. */
  const InheritedNames: set<string> :=
    {"constructor", "hasOwnProperty", "isPrototypeOf", "propertyIsEnumerable",
     "toLocaleString", "toString", "valueOf"}

  /** `own` holds the own properties of the table object. */
  datatype Fields<V> = Fields(own: map<string, V>, keys: seq<string>, length: int)

  function Empty<V>(): (f: Fields<V>) {
    Fields(map[], [], 0)
  }

  /** `Stashmap.Map.Valid`, the representation invariant the corrected map keeps, stated over this record. */
  ghost predicate Consistent<V>(f: Fields<V>) {
    && f.length == |f.keys|
    && Distinct(f.keys)
    && (forall k :: k in f.own <==> k in f.keys)
  }

  /** `has` as written: the property read is not `undefined`. An inherited name
      counts as present whether or not it was ever stored. */
  function Has<V>(f: Fields<V>, k: string): (b: bool)
    ensures k in InheritedNames ==> b
    ensures k !in InheritedNames ==> (b <==> k in f.own)
  {
    k in f.own || k in InheritedNames
  }

  /** `set` as written: the value is always stored, but the key is pushed and
      counted only when `has` said it was missing. */
  function Set<V>(f: Fields<V>, k: string, v: V): (r: Fields<V>)
    ensures r.own == f.own[k := v]
    ensures Has(f, k) ==> r.keys == f.keys && r.length == f.length
    ensures !Has(f, k) ==> r.keys == f.keys + [k] && r.length == f.length + 1
    ensures k in InheritedNames ==> r.keys == f.keys
  {
    var grown := if Has(f, k) then f else Fields(f.own, f.keys + [k], f.length + 1);
    grown.(own := grown.own[k := v])
  }

  /** `remove` as written: `delete` of a missing own property changes nothing, and
      `splice` at the -1 that `indexOf` returns for a missing key deletes the last key. */
  function Remove<V>(f: Fields<V>, k: string): (r: (Fields<V>, bool))
    ensures r.1 == Has(f, k)
    ensures !r.1 ==> r.0 == f
    ensures r.1 ==> r.0.own == f.own - {k} && r.0.length == f.length - 1
    ensures r.1 && k in f.keys ==>
      var i := IndexOf(f.keys, k);
      f.keys[i] == k && r.0.keys == f.keys[..i] + f.keys[i + 1..]
    ensures r.1 && k !in f.keys && f.keys != [] ==> r.0.keys == f.keys[..|f.keys| - 1]
  {
    if Has(f, k) then (Fields(f.own - {k}, Splice(f.keys, IndexOf(f.keys, k)), f.length - 1), true)
    else (f, false)
  }

  /** `getAt` as written. Out of range, the position reads `undefined` from the key
      array, which names the property "undefined". Only own properties are read: an
      inherited name never reaches the key array, since `Set` never pushes one. */
  function GetAt<V>(f: Fields<V>, pos: int): (r: Option<V>)
    ensures 0 <= pos < |f.keys| ==>
      r == if f.keys[pos] in f.own then Some(f.own[f.keys[pos]]) else None
    ensures !(0 <= pos < |f.keys|) ==>
      r == if "undefined" in f.own then Some(f.own["undefined"]) else None
  {
    var name := if 0 <= pos < |f.keys| then f.keys[pos] else "undefined";
    if name in f.own then Some(f.own[name]) else None
  }

  /** Out of range, `getAt` finds the value of a key named "undefined". */
  lemma GetAtOutOfRangeReadsUndefinedKey(v: int)
    ensures var f := Set(Empty(), "undefined", v);
      && Consistent(f) && |f.keys| == 1
      && GetAt(f, 1) == Some(v) && GetAt(f, -1) == Some(v)
  {
  }

  /** On an empty map an inherited name already counts as present, so `set`
      stores the value without recording the key in the order or the count. */
  lemma SetInheritedNameSkipsOrder(v: int)
    ensures Has(Empty<int>(), "toString")
    ensures var f := Set(Empty(), "toString", v);
      && f.own == map["toString" := v] && f.keys == [] && f.length == 0
      && !Consistent(f)
  {
    var f := Set(Empty(), "toString", v);
    assert "toString" in f.own && "toString" !in f.keys;
  }

  /** Removing an inherited name that was never set reports success, lowers the
      count and deletes the last key from the order while its value stays in the table.
      On an empty map there is no key to delete, and the count drops to -1. */
  lemma RemoveInheritedNameDropsLastKey(v: int)
    ensures var f := Set(Empty(), "a", v);
      && Consistent(f)
      && Remove(f, "toString") == (Fields(map["a" := v], [], 0), true)
      && !Consistent(Remove(f, "toString").0)
    ensures Remove(Empty<int>(), "toString") == (Fields(map[], [], -1), true)
  {
    var f := Set(Empty(), "a", v);
    assert f.keys == ["a"];
    assert IndexOf(f.keys, "toString") == -1;
    assert Splice(f.keys, -1) == [];
    assert f.own - {"toString"} == map["a" := v];
    assert "a" in Remove(f, "toString").0.own;
  }

  /** Away from the inherited names, `set` as written keeps the invariant, as the corrected map does. */
  lemma SetKeepsConsistentAwayFromInherited<V>(f: Fields<V>, k: string, v: V)
    requires Consistent(f) && k !in InheritedNames
    ensures Consistent(Set(f, k, v))
    ensures Set(f, k, v).keys == if k in f.keys then f.keys else f.keys + [k]
  {
  }
}
