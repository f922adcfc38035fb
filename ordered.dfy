/** Insertion-ordered collections, as JavaScript's `Set` and `Map` keep them: a key is placed where it
    was first added, and adding it again neither duplicates nor moves it. */
module Ordered {

  predicate NoDuplicates<T(==)>(s: seq<T>) {
    forall i, j :: 0 <= i < j < |s| ==> s[i] != s[j]
  }

  /** The position of the first occurrence of `x` in `s`. */
  function FirstIndex<T(==)>(s: seq<T>, x: T): (i: nat)
    requires x in s
    ensures i < |s| && s[i] == x && x !in s[..i]
  {
    if s[0] == x then 0
    else
      var j := FirstIndex(s[1..], x);
      assert s[..1 + j] == [s[0]] + s[1..][..j];
      1 + j
  }

  /** The elements of `r` appear in the order in which they first occur in `s`. */
  predicate InFirstOccurrenceOrder<T(==)>(r: seq<T>, s: seq<T>) {
    forall i, j :: 0 <= i < j < |r| ==> r[i] in s && r[j] in s && FirstIndex(s, r[i]) < FirstIndex(s, r[j])
  }

  /** Adding `x` to an insertion-ordered key list (`Set.prototype.add`). */
  function Add<T(==,!new)>(r: seq<T>, x: T): (r': seq<T>)
    ensures forall y :: y in r' <==> y in r || y == x
    ensures NoDuplicates(r) ==> NoDuplicates(r')
    ensures |r| <= |r'| <= |r| + 1 && r'[..|r|] == r
  {
    if x in r then r else r + [x]
  }

  /** The distinct elements of `s` in order of first occurrence: the key list after adding the
      elements of `s` one by one. */
  function Dedup<T(==,!new)>(s: seq<T>): (r: seq<T>)
    ensures NoDuplicates(r)
    ensures forall x :: x in r <==> x in s
  {
    if s == [] then []
    else
      var p, x := s[..|s| - 1], s[|s| - 1];
      assert s == p + [x];
      Add(Dedup(p), x)
  }

  lemma DedupSnoc<T(!new)>(s: seq<T>, x: T)
    ensures Dedup(s + [x]) == Add(Dedup(s), x)
  {
    assert (s + [x])[..|s|] == s;
  }

  lemma FirstIndexOfPrefix<T>(p: seq<T>, x: T, y: T)
    requires y in p
    ensures y in p + [x] && FirstIndex(p + [x], y) == FirstIndex(p, y)
  {
    var i, k := FirstIndex(p, y), FirstIndex(p + [x], y);
    assert k <= |p| ==> (p + [x])[..k] == p[..k];
  }

  /** Dedup keeps the first occurrences in the order they occur: re-adding neither duplicates nor reorders. */
  lemma {:induction false} DedupOrder<T(!new)>(s: seq<T>)
    ensures InFirstOccurrenceOrder(Dedup(s), s)
  {
    if s != [] {
      var p, x := s[..|s| - 1], s[|s| - 1];
      assert s == p + [x];
      DedupOrder(p);
      var d := Dedup(p);
      DedupSnoc(p, x);
      forall y | y in d
        ensures y in s && FirstIndex(s, y) == FirstIndex(p, y) < |p|
      {
        FirstIndexOfPrefix(p, x, y);
      }
      if x !in d {
        assert x !in p;
        FirstIndexOfLast(p, x);
        var r := Dedup(s);
        assert r == d + [x];
        forall i, j | 0 <= i < j < |r|
          ensures r[i] in s && r[j] in s && FirstIndex(s, r[i]) < FirstIndex(s, r[j])
        {
          if j < |d| {
            assert r[i] == d[i] && r[j] == d[j];
          } else {
            assert r[i] == d[i] && r[j] == x;
          }
        }
      }
    }
  }

  lemma FirstIndexOfLast<T>(p: seq<T>, x: T)
    requires x !in p
    ensures FirstIndex(p + [x], x) == |p|
  {
    assert (p + [x])[..|p|] == p;
  }

  /** Concatenation is associative (stated once so that it is used at one element type at a time). */
  lemma AppendAssoc<T>(a: seq<T>, b: seq<T>, c: seq<T>)
    ensures (a + b) + c == a + (b + c)
  {
  }

  /** An insertion-ordered map (`Map` in JavaScript): the key list in insertion order and the entries. */
  datatype OrderedMap<K(==,!new), V> = OrderedMap(keys: seq<K>, entries: map<K, V>) {

    ghost predicate Valid() {
      NoDuplicates(keys) && forall k :: k in keys <==> k in entries
    }

    /** `Map.prototype.set`: the entry for `k` becomes `v`; a new key goes last, a present key keeps its place. */
    function Set(k: K, v: V): (r: OrderedMap<K, V>)
      ensures k in r.entries && r.entries[k] == v
      ensures forall j :: j != k ==> (j in r.entries <==> j in entries)
      ensures forall j :: j != k && j in entries ==> r.entries[j] == entries[j]
      ensures k in keys ==> r.keys == keys
      ensures k !in keys ==> r.keys == keys + [k]
      ensures Valid() ==> r.Valid()
    {
      OrderedMap(Add(keys, k), entries[k := v])
    }
  }

  function EmptyMap<K(==,!new), V>(): (r: OrderedMap<K, V>)
    ensures r.Valid() && r.keys == [] && r.entries == map[]
  {
    OrderedMap([], map[])
  }

  /** Setting the same entry twice is the same as setting it once. */
  lemma SetIdempotent<K(!new), V>(m: OrderedMap<K, V>, k: K, v: V)
    ensures m.Set(k, v).Set(k, v) == m.Set(k, v)
  {
  }

  /** The later of two sets of one key wins, and the key keeps the place of the first. */
  lemma SetLastWriteWins<K(!new), V>(m: OrderedMap<K, V>, k: K, v1: V, v2: V)
    ensures m.Set(k, v1).Set(k, v2) == m.Set(k, v2)
  {
  }
}
