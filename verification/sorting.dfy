/**
 Ordering rows by an integer column, and the "sort, then take the first k rows"
 idiom the dashboard uses for its top-10 tables. The relative order of rows
 with equal keys is not promised by any contract here.
 */
module Sorting {
  import opened Seqs

  /** Non-decreasing in `key`. */
  predicate SortedBy<T>(s: seq<T>, key: T -> int) {
    forall i, j :: 0 <= i < j < |s| ==> key(s[i]) <= key(s[j])
  }

  /** Non-increasing in `key`. */
  predicate SortedDescBy<T>(s: seq<T>, key: T -> int) {
    forall i, j :: 0 <= i < j < |s| ==> key(s[i]) >= key(s[j])
  }

  function Negated<T>(key: T -> int): T -> int {
    x => -key(x)
  }

  function Insert<T>(x: T, s: seq<T>, key: T -> int): (r: seq<T>)
    requires SortedBy(s, key)
    ensures SortedBy(r, key)
    ensures multiset(r) == multiset(s) + multiset{x}
    decreases |s|
  {
    if |s| == 0 || key(x) <= key(s[0]) then
      [x] + s
    else
      var rest := Insert(x, s[1..], key);
      assert s == [s[0]] + s[1..];
      InsertBehind(s[0], s[1..], x, rest, key);
      [s[0]] + rest
  }

  /** A head no larger than the tail or the inserted row stays in front of the tail's insertion. */
  lemma InsertBehind<T>(h: T, tail: seq<T>, x: T, rest: seq<T>, key: T -> int)
    requires SortedBy([h] + tail, key) && key(h) < key(x)
    requires SortedBy(rest, key) && multiset(rest) == multiset(tail) + multiset{x}
    ensures SortedBy([h] + rest, key)
  {
    forall j | 0 <= j < |rest| ensures key(h) <= key(rest[j]) {
      assert rest[j] in multiset(rest);
      if rest[j] != x {
        assert rest[j] in multiset(tail);
        var m :| 0 <= m < |tail| && tail[m] == rest[j];
        assert ([h] + tail)[0] == h && ([h] + tail)[m + 1] == tail[m];
      }
    }
    var r := [h] + rest;
    forall i, j | 0 <= i < j < |r| ensures key(r[i]) <= key(r[j]) {
      if i > 0 {
        assert r[i] == rest[i - 1] && r[j] == rest[j - 1];
      } else {
        assert r[j] == rest[j - 1];
      }
    }
  }

  /** The rows of `s` rearranged into non-decreasing `key` order. */
  function Sort<T>(s: seq<T>, key: T -> int): (r: seq<T>)
    ensures SortedBy(r, key)
    ensures multiset(r) == multiset(s)
    ensures |r| == |s|
    decreases |s|
  {
    if |s| == 0 then []
    else
      assert s == s[..|s| - 1] + [s[|s| - 1]];
      var r := Insert(s[|s| - 1], Sort(s[..|s| - 1], key), key);
      assert |r| == |multiset(r)| == |multiset(s)|;
      r
  }

  /** The rows of `s` rearranged into non-increasing `key` order. */
  function SortDesc<T>(s: seq<T>, key: T -> int): (r: seq<T>)
    ensures SortedDescBy(r, key)
    ensures multiset(r) == multiset(s)
    ensures |r| == |s|
  {
    Sort(s, Negated(key))
  }

  /** In a sorted sequence every row before position `m` is at most every row from `m` on. */
  lemma SplitSorted<T>(t: seq<T>, m: int, key: T -> int)
    requires SortedBy(t, key) && 0 <= m <= |t|
    ensures forall x, y :: x in t[..m] && y in multiset(t[m..]) ==> key(x) <= key(y)
  {
    forall x, y | x in t[..m] && y in multiset(t[m..])
      ensures key(x) <= key(y)
    {
      var i :| 0 <= i < m && t[i] == x;
      assert y in t[m..];
      var j :| m <= j < |t| && t[j] == y;
    }
  }

  /**
   Sort ascending by `key` and keep the first `k` rows: a selection of
   min(k, |s|) rows none of whose keys exceeds the key of a row left out.
   */
  function SmallestK<T>(s: seq<T>, k: nat, key: T -> int): (r: seq<T>)
    ensures |r| == Min(k, |s|)
    ensures multiset(r) <= multiset(s)
    ensures SortedBy(r, key)
    ensures forall x, y :: x in r && y in multiset(s) - multiset(r) ==> key(x) <= key(y)
  {
    var t := Sort(s, key);
    var m := Min(k, |s|);
    SplitSorted(t, m, key);
    assert t == t[..m] + t[m..];
    assert multiset(s) - multiset(t[..m]) == multiset(t[m..]);
    t[..m]
  }

  /**
   Sort descending by `key` and keep the first `k` rows: a selection of
   min(k, |s|) rows none of whose keys is below the key of a row left out.
   */
  function LargestK<T>(s: seq<T>, k: nat, key: T -> int): (r: seq<T>)
    ensures |r| == Min(k, |s|)
    ensures multiset(r) <= multiset(s)
    ensures SortedDescBy(r, key)
    ensures forall x, y :: x in r && y in multiset(s) - multiset(r) ==> key(x) >= key(y)
  {
    SmallestK(s, k, Negated(key))
  }

  /** `idxmax`: the position of the first row with the largest key. */
  function ArgMax<T>(s: seq<T>, key: T -> int): (i: nat)
    requires |s| > 0
    ensures i < |s|
    ensures forall j :: 0 <= j < |s| ==> key(s[j]) <= key(s[i])
    ensures forall j :: 0 <= j < i ==> key(s[j]) < key(s[i])
    decreases |s|
  {
    if |s| == 1 then 0
    else
      var k := ArgMax(s[..|s| - 1], key);
      if key(s[|s| - 1]) > key(s[k]) then |s| - 1 else k
  }
}
