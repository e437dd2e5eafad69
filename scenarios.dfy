/**
 * The scenarios of the library's test suite, replayed on the model. The suite
 * builds some maps from an object literal, which the constructor does not
 * support (so those tests fail against the code); here those maps are built
 * with `Add` calls in the literal's order.
 */
module StashmapTests {
  import opened Wrappers
  import opened Stashmap

  /** A fresh map holding a, b, c, d set to 1..4, in that order. */
  method BuildFour() returns (sm: Map<int>)
    ensures fresh(sm) && sm.Valid()
    ensures sm.keys == ["a", "b", "c", "d"]
    ensures sm.m == map["a" := 1, "b" := 2, "c" := 3, "d" := 4]
  {
    sm := new Map<int>();
    var self := sm.Set("a", 1);
    self := self.Set("b", 2);
    self := self.Set("c", 3);
    self := self.Set("d", 4);
  }

  /** Set a, b, c, d to 1..4 and remove c: three entries remain, `d` moves to position 2,
      and a second removal of c fails. */
  method RemoveScenario()
    returns (length: int, b: Option<int>, at2: Option<int>, hasC: bool, hasD: bool, first: bool, again: bool)
    ensures length == 3 && b == Some(2) && at2 == Some(4)
    ensures !hasC && hasD
    ensures first && !again
  {
    var sm := BuildFour();
    ghost var before := sm.keys;
    first := sm.Remove("c");
    ghost var i :| 0 <= i < |before| && before[i] == "c" && sm.keys == before[..i] + before[i + 1..];
    assert i == 2;
    assert sm.keys == ["a", "b", "d"];
    length := sm.length;
    b := sm.Get("b");
    at2 := sm.GetAt(2);
    hasC := sm.Has("c");
    hasD := sm.Has("d");
    again := sm.Remove("c");
  }

  /** A fresh map holding a and b set to 1 and 2, the suite's {a: 1, b: 2}. */
  method BuildTwo() returns (sm: Map<int>)
    ensures fresh(sm) && sm.Valid()
    ensures sm.keys == ["a", "b"]
    ensures sm.m == map["a" := 1, "b" := 2]
  {
    sm := new Map<int>();
    var self := sm.Add("a", 1);
    self := sm.Add("b", 2);
  }

  /** The map {a: 1, b: 2}: `get('b')` is 2 and the keys are [a, b]. */
  method ConstructScenario() returns (b: Option<int>, length: int, keys: seq<string>)
    ensures b == Some(2)
    ensures length == 2
    ensures keys == ["a", "b"]
  {
    var sm := BuildTwo();
    b := sm.Get("b");
    length := sm.length;
    keys := sm.GetKeys();
  }

  /** The map {a: 1, b: 2}: `forEach` calls back exactly twice, with (1, a) and then (2, b). */
  method ForEachScenario() returns (calls: seq<(int, string)>)
    ensures |calls| == 2
    ensures calls == [(1, "a"), (2, "b")]
  {
    var sm := BuildTwo();
    calls := sm.ForEach();
  }

  /** Among the first `n` pairs of `kvs`, pair `j` is the last one that sets its key. */
  ghost predicate LastSetAmong<V>(kvs: seq<(string, V)>, n: int, j: int)
    requires 0 <= j < n <= |kvs|
  {
    forall l :: j < l < n ==> kvs[l].0 != kvs[j].0
  }

  /** Every key among the first `n` pairs of `kvs` holds the value of its last `set`. */
  ghost predicate HoldsLastValues<V>(sm: Map<V>, kvs: seq<(string, V)>, n: int)
    requires n <= |kvs|
    reads sm
  {
    forall j :: 0 <= j < n && LastSetAmong(kvs, n, j) ==> kvs[j].0 in sm.m && sm.m[kvs[j].0] == kvs[j].1
  }

  /** One step of `SetAll`: `set` the pair `kvs[i]`. */
  method SetNext<V>(sm: Map<V>, kvs: seq<(string, V)>, i: nat)
    requires sm.Valid() && i < |kvs| && HoldsLastValues(sm, kvs, i)
    modifies sm
    ensures sm.Valid() && HoldsLastValues(sm, kvs, i + 1)
    ensures sm.keys == AppendNew(old(sm.keys), kvs[i].0)
  {
    var self := sm.Set(kvs[i].0, kvs[i].1);
    forall j | 0 <= j < i + 1 && LastSetAmong(kvs, i + 1, j)
      ensures kvs[j].0 in sm.m && sm.m[kvs[j].0] == kvs[j].1
    {
      if j < i {
        assert LastSetAmong(kvs, i, j);
        assert kvs[i].0 != kvs[j].0;
      }
    }
  }

  /** Setting the pairs `kvs` in turn on a new map leaves its key order at the
      `InsertionOrder` of their keys, and every key holds the value of its last `set`. */
  method SetAll<V>(kvs: seq<(string, V)>) returns (sm: Map<V>)
    ensures fresh(sm) && sm.Valid()
    ensures sm.keys == InsertionOrder(seq(|kvs|, i requires 0 <= i < |kvs| => kvs[i].0))
    ensures forall j :: 0 <= j < |kvs| && LastSetAmong(kvs, |kvs|, j) ==> sm.Get(kvs[j].0) == Some(kvs[j].1)
  {
    ghost var ks := seq(|kvs|, i requires 0 <= i < |kvs| => kvs[i].0);
    sm := new Map<V>();
    for i := 0 to |kvs|
      invariant sm.Valid()
      invariant sm.keys == InsertionOrder(ks[..i])
      invariant HoldsLastValues(sm, kvs, i)
    {
      assert ks[..i + 1][..i] == ks[..i];
      assert ks[..i + 1][i] == kvs[i].0;
      SetNext(sm, kvs, i);
    }
    assert ks[..|kvs|] == ks;
  }

  /** Setting an absent key and removing it again restores the map exactly. */
  method SetThenRemove(sm: Map<int>, k: string, v: int) returns (removed: bool)
    requires sm.Valid() && !sm.Has(k)
    modifies sm
    ensures removed
    ensures sm.Valid() && sm.m == old(sm.m) && sm.keys == old(sm.keys) && sm.length == old(sm.length)
  {
    var self := sm.Set(k, v);
    removed := sm.Remove(k);
    Arrays.SpliceUndoesAppend(old(sm.keys), k);
  }
}
