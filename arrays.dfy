/**
 * The two JavaScript array primitives the map relies on to keep its key order:
 * `Array.prototype.indexOf` (strict equality, -1 when absent) and
 * `Array.prototype.splice(start, 1)` (delete one element, a negative start
 * counting back from the end).
 */
module Arrays {

  /** No element occurs twice. */
  predicate Distinct<T(==)>(s: seq<T>) {
    forall i, j :: 0 <= i < j < |s| ==> s[i] != s[j]
  }

  /** `s.indexOf(x)`: the first position holding `x`, or -1 when there is none. */
  function IndexOf<T(==)>(s: seq<T>, x: T): (i: int)
    ensures -1 <= i < |s|
    ensures i == -1 <==> x !in s
    ensures 0 <= i ==> s[i] == x && x !in s[..i]
  {
    if |s| == 0 then -1
    else if s[0] == x then 0
    else
      var j := IndexOf(s[1..], x);
      if j == -1 then -1
      else
        assert s[..j + 1] == [s[0]] + s[1..][..j];
        j + 1
  }

  /** The position `splice` really starts at: a negative start counts back from `len`, and the result is clamped to 0 and `len`. */
  function SpliceStart(len: nat, start: int): (at: nat)
    ensures at <= len
  {
    if start < 0 then (if len + start < 0 then 0 else len + start)
    else if start <= len then start
    else len
  }

  /** What is left of `s` after `s.splice(start, 1)`. */
  function Splice<T>(s: seq<T>, start: int): (r: seq<T>)
    ensures var at := SpliceStart(|s|, start);
      && (at == |s| ==> r == s)
      && (at < |s| ==>
            && |r| == |s| - 1
            && (forall j :: 0 <= j < at ==> r[j] == s[j])
            && (forall j :: at <= j < |r| ==> r[j] == s[j + 1]))
  {
    var at := SpliceStart(|s|, start);
    if at < |s| then s[..at] + s[at + 1..] else s
  }

  /** Deleting the first occurrence of a present element of a duplicate-free
      sequence removes exactly that element and keeps the others in order. */
  lemma SpliceIndexOf<T>(s: seq<T>, x: T)
    requires Distinct(s) && x in s
    ensures var i := IndexOf(s, x);
      && 0 <= i < |s| && s[i] == x
      && Splice(s, i) == s[..i] + s[i + 1..]
      && Distinct(Splice(s, i))
      && (forall y :: y in Splice(s, i) <==> y in s && y != x)
  {
    var i := IndexOf(s, x);
    var r := Splice(s, i);
    assert r == s[..i] + s[i + 1..];
    forall y | y in s && y != x ensures y in r {
      var k :| 0 <= k < |s| && s[k] == y;
      if k < i { assert r[k] == y; } else { assert k != i; assert r[k - 1] == y; }
    }
    forall a, b | 0 <= a < b < |r| ensures r[a] != r[b] {
      var a' := if a < i then a else a + 1;
      var b' := if b < i then b else b + 1;
      assert r[a] == s[a'] && r[b] == s[b'];
    }
  }

  /** The position of an element that was just appended to a sequence lacking it. */
  lemma {:induction false} IndexOfAppended<T>(s: seq<T>, x: T)
    requires x !in s
    ensures IndexOf(s + [x], x) == |s|
  {
    if s != [] {
      assert (s + [x])[1..] == s[1..] + [x];
      IndexOfAppended(s[1..], x);
    }
  }

  /** Appending an element does not move the first occurrence of one already present. */
  lemma {:induction false} IndexOfExtended<T>(s: seq<T>, z: T, x: T)
    requires x in s
    ensures IndexOf(s + [z], x) == IndexOf(s, x)
  {
    if s[0] != x {
      assert (s + [z])[1..] == s[1..] + [z];
      IndexOfExtended(s[1..], z, x);
    }
  }

  /** Removing an element right after appending it gives back the original sequence. */
  lemma SpliceUndoesAppend<T>(s: seq<T>, x: T)
    requires x !in s
    ensures Splice(s + [x], IndexOf(s + [x], x)) == s
  {
    IndexOfAppended(s, x);
    assert (s + [x])[..|s|] == s;
  }
}
