/**
 Row identity by a key column: keeping the first row per key (pandas
 `drop_duplicates(subset=...)`) and splitting rows into groups by key
 (pandas `groupby`). Groups are returned as a map from key to the group's
 rows in their original order; aggregates are computed from those groups.
 */
module Grouping {
  import opened Seqs

  /** The values the key column takes. */
  function KeySet<T, K(==)>(s: seq<T>, key: T -> K): set<K> {
    set i | 0 <= i < |s| :: key(s[i])
  }

  /** No key value is carried by two rows. */
  predicate DistinctBy<T, K(==)>(s: seq<T>, key: T -> K) {
    forall i, j :: 0 <= i < j < |s| ==> key(s[i]) != key(s[j])
  }

  /** Position of the first row carrying key `k`. */
  function FirstIndex<T, K(==)>(s: seq<T>, key: T -> K, k: K): (i: nat)
    requires k in KeySet(s, key)
    ensures i < |s| && key(s[i]) == k
    ensures forall j :: 0 <= j < i ==> key(s[j]) != k
    decreases |s|
  {
    if key(s[0]) == k then 0
    else
      assert k in KeySet(s[1..], key) by {
        var i :| 0 <= i < |s| && key(s[i]) == k;
        assert s[1..][i - 1] == s[i];
      }
      1 + FirstIndex(s[1..], key, k)
  }

  lemma KeySetSnoc<T, K>(init: seq<T>, x: T, key: T -> K)
    ensures KeySet(init + [x], key) == KeySet(init, key) + {key(x)}
  {
    var s := init + [x];
    forall k | k in KeySet(s, key)
      ensures k in KeySet(init, key) + {key(x)}
    {
      var i :| 0 <= i < |s| && key(s[i]) == k;
      if i < |init| {
        assert s[i] == init[i];
      }
    }
    forall k | k in KeySet(init, key)
      ensures k in KeySet(s, key)
    {
      var i :| 0 <= i < |init| && key(init[i]) == k;
      assert s[i] == init[i];
    }
    assert s[|init|] == x;
  }

  /** Appending a row does not move the first occurrence of a key already present. */
  lemma FirstIndexSnoc<T, K>(init: seq<T>, x: T, key: T -> K, k: K)
    requires k in KeySet(init, key)
    ensures k in KeySet(init + [x], key)
    ensures FirstIndex(init + [x], key, k) == FirstIndex(init, key, k)
  {
    KeySetSnoc(init, x, key);
    var s := init + [x];
    var a, b := FirstIndex(s, key, k), FirstIndex(init, key, k);
    assert s[b] == init[b];
    assert a <= b;
    assert s[a] == init[a];
  }

  /** A row whose key is new is its own first occurrence. */
  lemma FirstIndexNew<T, K>(init: seq<T>, x: T, key: T -> K)
    requires key(x) !in KeySet(init, key)
    ensures key(x) in KeySet(init + [x], key)
    ensures FirstIndex(init + [x], key, key(x)) == |init|
  {
    KeySetSnoc(init, x, key);
    var s := init + [x];
    forall j | 0 <= j < |init|
      ensures key(s[j]) != key(x)
    {
      assert s[j] == init[j];
    }
  }

  /**
   `r` holds, for each key value of `s`, the first row of `s` with that key,
   and these rows stand in `r` in the order they stand in `s`.
   */
  ghost predicate FirstRowsPerKey<T, K>(r: seq<T>, s: seq<T>, key: T -> K) {
    && IsSubsequence(r, s)
    && DistinctBy(r, key)
    && KeySet(r, key) == KeySet(s, key)
    && (forall i :: 0 <= i < |r| ==>
          key(r[i]) in KeySet(s, key) && r[i] == s[FirstIndex(s, key, key(r[i]))])
    && (forall i, j :: 0 <= i < j < |r| ==>
          FirstIndex(s, key, key(r[i])) < FirstIndex(s, key, key(r[j])))
  }

  lemma DedupStepOld<T, K>(rest: seq<T>, init: seq<T>, x: T, key: T -> K)
    requires FirstRowsPerKey(rest, init, key)
    requires key(x) in KeySet(init, key)
    ensures FirstRowsPerKey(rest, init + [x], key)
  {
    var s := init + [x];
    KeySetSnoc(init, x, key);
    SubsequenceExtend(rest, init, x);
    forall k | k in KeySet(init, key)
      ensures FirstIndex(s, key, k) == FirstIndex(init, key, k)
    {
      FirstIndexSnoc(init, x, key, k);
    }
    forall i | 0 <= i < |rest|
      ensures rest[i] == s[FirstIndex(s, key, key(rest[i]))]
    {
      var f := FirstIndex(init, key, key(rest[i]));
      assert s[f] == init[f];
    }
  }

  lemma DedupStepNew<T, K>(rest: seq<T>, init: seq<T>, x: T, key: T -> K)
    requires FirstRowsPerKey(rest, init, key)
    requires key(x) !in KeySet(init, key)
    ensures FirstRowsPerKey(rest + [x], init + [x], key)
  {
    var s, r := init + [x], rest + [x];
    KeySetSnoc(init, x, key);
    KeySetSnoc(rest, x, key);
    FirstIndexNew(init, x, key);
    SubsequenceSnoc(rest, init, x);
    forall k | k in KeySet(init, key)
      ensures FirstIndex(s, key, k) == FirstIndex(init, key, k) < |init|
    {
      FirstIndexSnoc(init, x, key, k);
    }
    forall i | 0 <= i < |r|
      ensures r[i] == s[FirstIndex(s, key, key(r[i]))]
    {
      if i < |rest| {
        var f := FirstIndex(init, key, key(rest[i]));
        assert s[f] == init[f];
      }
    }
    forall i, j | 0 <= i < j < |r|
      ensures key(r[i]) != key(r[j])
    {
      if j == |rest| {
        assert key(rest[i]) in KeySet(init, key);
      }
    }
  }

  /** Keep the first row for each key value, in input order (`drop_duplicates`). */
  function Dedup<T(==), K(==)>(s: seq<T>, key: T -> K): (r: seq<T>)
    ensures FirstRowsPerKey(r, s, key)
    decreases |s|
  {
    if |s| == 0 then []
    else
      var init, x := s[..|s| - 1], s[|s| - 1];
      assert s == init + [x];
      var rest := Dedup(init, key);
      if key(x) in KeySet(init, key) then
        DedupStepOld(rest, init, x, key);
        rest
      else
        DedupStepNew(rest, init, x, key);
        rest + [x]
  }

  /** Rows whose keys are already distinct are left untouched. */
  lemma {:induction false} DedupOfDistinct<T, K>(s: seq<T>, key: T -> K)
    requires DistinctBy(s, key)
    ensures Dedup(s, key) == s
    decreases |s|
  {
    if |s| > 0 {
      var init, x := s[..|s| - 1], s[|s| - 1];
      assert s == init + [x];
      assert DistinctBy(init, key) by {
        forall i | 0 <= i < |init| ensures s[i] == init[i] {}
      }
      DedupOfDistinct(init, key);
      forall i | 0 <= i < |init|
        ensures key(init[i]) != key(x)
      {
        assert s[i] == init[i];
      }
      assert key(x) !in KeySet(init, key);
    }
  }

  /** Deduplicating twice is deduplicating once. */
  lemma DedupIdempotent<T, K>(s: seq<T>, key: T -> K)
    ensures Dedup(Dedup(s, key), key) == Dedup(s, key)
  {
    DedupOfDistinct(Dedup(s, key), key);
  }

  /** The keys of a concatenation are the keys of its two parts. */
  lemma KeySetConcat<T, K>(a: seq<T>, b: seq<T>, key: T -> K)
    ensures KeySet(a + b, key) == KeySet(a, key) + KeySet(b, key)
  {
    var s := a + b;
    forall k | k in KeySet(s, key) ensures k in KeySet(a, key) + KeySet(b, key) {
      var i :| 0 <= i < |s| && key(s[i]) == k;
      if i < |a| {
        assert s[i] == a[i];
      } else {
        assert s[i] == b[i - |a|];
      }
    }
    forall k | k in KeySet(a, key) ensures k in KeySet(s, key) {
      var i :| 0 <= i < |a| && key(a[i]) == k;
      assert s[i] == a[i];
    }
    forall k | k in KeySet(b, key) ensures k in KeySet(s, key) {
      var i :| 0 <= i < |b| && key(b[i]) == k;
      assert s[|a| + i] == b[i];
    }
  }

  /** One more row is kept exactly when its key is new. */
  lemma DedupSnoc<T, K>(init: seq<T>, x: T, key: T -> K)
    ensures Dedup(init + [x], key)
            == if key(x) in KeySet(init, key) then Dedup(init, key) else Dedup(init, key) + [x]
  {
    assert (init + [x])[..|init|] == init;
  }

  /** Rows whose keys all occur earlier add nothing to the deduplication. */
  lemma {:induction false} DedupAbsorbed<T, K>(a: seq<T>, b: seq<T>, key: T -> K)
    requires KeySet(b, key) <= KeySet(a, key)
    ensures Dedup(a + b, key) == Dedup(a, key)
    decreases |b|
  {
    if |b| == 0 {
      assert a + b == a;
    } else {
      var b', x := b[..|b| - 1], b[|b| - 1];
      assert b == b' + [x];
      KeySetSnoc(b', x, key);
      DedupAbsorbed(a, b', key);
      ConcatAssoc(a, b', [x]);
      KeySetConcat(a, b', key);
      DedupSnoc(a + b', x, key);
    }
  }

  /** When the two parts share no key, deduplicating the whole deduplicates each part. */
  lemma {:induction false} DedupDisjoint<T, K>(a: seq<T>, b: seq<T>, key: T -> K)
    requires KeySet(a, key) !! KeySet(b, key)
    ensures Dedup(a + b, key) == Dedup(a, key) + Dedup(b, key)
    decreases |b|
  {
    if |b| == 0 {
      assert a + b == a;
    } else {
      var b', x := b[..|b| - 1], b[|b| - 1];
      assert b == b' + [x];
      DisjointSnocKeys(a, b', x, key);
      DedupDisjoint(a, b', key);
      ConcatAssoc(a, b', [x]);
      DedupSnoc(a + b', x, key);
      DedupSnoc(b', x, key);
      ConcatAssoc(Dedup(a, key), Dedup(b', key), [x]);
    }
  }

  lemma DisjointSnocKeys<T, K>(a: seq<T>, b: seq<T>, x: T, key: T -> K)
    requires KeySet(a, key) !! KeySet(b + [x], key)
    ensures KeySet(a, key) !! KeySet(b, key)
    ensures key(x) in KeySet(a + b, key) <==> key(x) in KeySet(b, key)
  {
    KeySetSnoc(b, x, key);
    KeySetConcat(a, b, key);
  }

  /** Rows with distinct keys are distinct rows. */
  lemma DistinctByDistinct<T, K>(s: seq<T>, key: T -> K)
    requires DistinctBy(s, key)
    ensures Distinct(s)
  {
  }

  /** Rearranging rows keeps their keys distinct. */
  lemma DistinctByPermutation<T, K>(a: seq<T>, b: seq<T>, key: T -> K)
    requires multiset(a) == multiset(b) && DistinctBy(a, key)
    ensures DistinctBy(b, key)
  {
    DistinctByDistinct(a, key);
    forall i, j | 0 <= i < j < |b|
      ensures key(b[i]) != key(b[j])
    {
      if b[i] == b[j] {
        MultisetTwice(b, i, j);
        MultisetAtMostOnce(a, b[i]);
        assert false;
      } else {
        assert b[i] in multiset(a) && b[j] in multiset(a);
      }
    }
  }

  /** Rearranging rows keeps the set of their keys. */
  lemma KeySetPermutation<T, K>(a: seq<T>, b: seq<T>, key: T -> K)
    requires multiset(a) == multiset(b)
    ensures KeySet(a, key) == KeySet(b, key)
  {
    forall k | k in KeySet(a, key) ensures k in KeySet(b, key) {
      var i :| 0 <= i < |a| && key(a[i]) == k;
      assert a[i] in multiset(b);
      var j :| 0 <= j < |b| && b[j] == a[i];
    }
    forall k | k in KeySet(b, key) ensures k in KeySet(a, key) {
      var i :| 0 <= i < |b| && key(b[i]) == k;
      assert b[i] in multiset(a);
      var j :| 0 <= j < |a| && a[j] == b[i];
    }
  }

  /** The distinct key values of `s`, in order of first appearance. */
  function DistinctKeys<T(==), K(==)>(s: seq<T>, key: T -> K): (ks: seq<K>)
    ensures Distinct(ks)
    ensures Elements(ks) == KeySet(s, key)
  {
    var d := Dedup(s, key);
    var ks := MapSeq(key, d);
    KeysOfDistinctRows(d, key, ks);
    ks
  }

  /** The keys of rows with distinct keys are distinct and make up the key set. */
  lemma KeysOfDistinctRows<T, K>(d: seq<T>, key: T -> K, ks: seq<K>)
    requires DistinctBy(d, key)
    requires |ks| == |d| && forall i :: 0 <= i < |d| ==> ks[i] == key(d[i])
    ensures Distinct(ks)
    ensures Elements(ks) == KeySet(d, key)
  {
    forall k | k in KeySet(d, key) ensures k in Elements(ks) {
      var i :| 0 <= i < |d| && key(d[i]) == k;
      assert ks[i] == k;
    }
  }

  /** The rows of `s` whose key is `k`, in their original order. */
  function Where<T, K(==)>(s: seq<T>, key: T -> K, k: K): seq<T> {
    Filter(s, x => key(x) == k)
  }

  lemma WhereSnoc<T, K>(init: seq<T>, x: T, key: T -> K, k: K)
    ensures Where(init + [x], key, k) == Where(init, key, k) + (if key(x) == k then [x] else [])
  {
    var s := init + [x];
    assert s[..|s| - 1] == init;
  }

  /** Selecting a group distributes over concatenation. */
  lemma WhereConcat<T, K>(a: seq<T>, b: seq<T>, key: T -> K, k: K)
    ensures Where(a + b, key, k) == Where(a, key, k) + Where(b, key, k)
  {
    var p := x => key(x) == k;
    assert Where(a + b, key, k) == Filter(a + b, p);
    assert Where(a, key, k) == Filter(a, p) && Where(b, key, k) == Filter(b, p);
    FilterConcat(a, b, p);
  }

  /** Every row of the group of `k` has key `k`, and the group keeps the order of `s`. */
  lemma WhereKeys<T, K>(s: seq<T>, key: T -> K, k: K)
    ensures forall i :: 0 <= i < |Where(s, key, k)| ==> key(Where(s, key, k)[i]) == k
    ensures IsSubsequence(Where(s, key, k), s)
  {
    var p := x => key(x) == k;
    assert Where(s, key, k) == Filter(s, p);
    assert forall i :: 0 <= i < |Filter(s, p)| ==> p(Filter(s, p)[i]);
  }

  /** The group of `k` holds exactly the rows of `s` whose key is `k`. */
  lemma WhereMember<T, K>(s: seq<T>, key: T -> K, k: K, x: T)
    ensures x in Where(s, key, k) <==> x in s && key(x) == k
  {
    var w := Where(s, key, k);
    if x in w {
      SubsequenceMultiset(w, s);
      assert x in multiset(s);
      var j :| 0 <= j < |w| && w[j] == x;
    }
    if x in s && key(x) == k {
      var i :| 0 <= i < |s| && s[i] == x;
    }
  }

  /** With distinct keys, the group of a key carried by some row is that one row. */
  lemma {:induction false} WhereDistinct<T, K>(s: seq<T>, key: T -> K, k: K)
    requires DistinctBy(s, key)
    ensures |Where(s, key, k)| == if k in KeySet(s, key) then 1 else 0
    decreases |s|
  {
    if |s| > 0 {
      var init, x := s[..|s| - 1], s[|s| - 1];
      assert s == init + [x];
      assert forall i :: 0 <= i < |init| ==> s[i] == init[i];
      WhereDistinct(init, key, k);
      WhereSnoc(init, x, key, k);
      KeySetSnoc(init, x, key);
      if key(x) == k {
        assert k !in KeySet(init, key);
      }
    }
  }

  /** A key carried by some row has a nonempty group; any other key has an empty one. */
  lemma WhereEmpty<T, K>(s: seq<T>, key: T -> K, k: K)
    ensures |Where(s, key, k)| > 0 <==> k in KeySet(s, key)
  {
    var w := Where(s, key, k);
    if |w| > 0 {
      SubsequenceMultiset(w, s);
      assert w[0] in multiset(s);
      var i :| 0 <= i < |s| && s[i] == w[0];
    }
    if k in KeySet(s, key) {
      var i :| 0 <= i < |s| && key(s[i]) == k;
      assert s[i] in w;
    }
  }

  /**
   pandas `groupby`: one entry per key value of `s`, holding exactly the rows
   with that key in their original order (so no group is empty).
   */
  function GroupBy<T(==), K(==)>(s: seq<T>, key: T -> K): (m: map<K, seq<T>>)
    ensures m.Keys == KeySet(s, key)
    ensures forall k :: k in m ==> m[k] == Where(s, key, k)
    ensures forall k :: k in m ==> |m[k]| > 0
    decreases |s|
  {
    if |s| == 0 then map[]
    else
      var init, x := s[..|s| - 1], s[|s| - 1];
      var m := GroupBy(init, key);
      GroupsSnoc(m, s, key);
      m[key(x) := (if key(x) in m then m[key(x)] else []) + [x]]
  }

  /** `m` maps every key of `s`, and only those, to its non-empty group. */
  ghost predicate IsGrouping<T, K>(m: map<K, seq<T>>, s: seq<T>, key: T -> K) {
    && m.Keys == KeySet(s, key)
    && (forall k :: k in m ==> m[k] == Where(s, key, k))
    && (forall k :: k in m ==> |m[k]| > 0)
  }

  /** Appending the last row to its key's group turns the grouping of the other rows into that of all. */
  lemma GroupsSnoc<T, K>(m: map<K, seq<T>>, s: seq<T>, key: T -> K)
    requires |s| > 0 && IsGrouping(m, s[..|s| - 1], key)
    ensures IsGrouping(m[key(s[|s| - 1]) := (if key(s[|s| - 1]) in m then m[key(s[|s| - 1])] else []) + [s[|s| - 1]]], s, key)
  {
    var init, x := s[..|s| - 1], s[|s| - 1];
    var m' := m[key(x) := (if key(x) in m then m[key(x)] else []) + [x]];
    assert s == init + [x];
    KeySetSnoc(init, x, key);
    assert m'.Keys == KeySet(s, key);
    forall k | k in m' ensures m'[k] == Where(s, key, k) && |m'[k]| > 0 {
      WhereSnoc(init, x, key, k);
      if k == key(x) && key(x) !in m {
        WhereEmpty(init, key, k);
      }
    }
  }

  /** Sum of the weights of each group, over the keys listed in `ks`. */
  function SumGroups<T, K(==)>(s: seq<T>, key: T -> K, ks: seq<K>, w: T -> int): int
    decreases |ks|
  {
    if |ks| == 0 then 0
    else SumGroups(s, key, ks[..|ks| - 1], w) + SumW(Where(s, key, ks[|ks| - 1]), w)
  }

  lemma {:induction false} SumGroupsEmpty<T, K>(key: T -> K, ks: seq<K>, w: T -> int)
    ensures SumGroups([], key, ks, w) == 0
    decreases |ks|
  {
    if |ks| > 0 {
      SumGroupsEmpty(key, ks[..|ks| - 1], w);
    }
  }

  /** A new row adds its weight to the group of its key, if that key is listed. */
  lemma {:induction false} SumGroupsSnoc<T, K>(init: seq<T>, x: T, key: T -> K, ks: seq<K>, w: T -> int)
    requires Distinct(ks)
    ensures SumGroups(init + [x], key, ks, w)
            == SumGroups(init, key, ks, w) + (if key(x) in ks then w(x) else 0)
    decreases |ks|
  {
    if |ks| > 0 {
      var ks', k := ks[..|ks| - 1], ks[|ks| - 1];
      assert ks == ks' + [k];
      SumGroupsSnoc(init, x, key, ks', w);
      WhereSnoc(init, x, key, k);
      SumConcat(Where(init, key, k), if key(x) == k then [x] else [], w);
      assert SumW([x], w) == w(x) by {
        assert [x][..0] == [];
      }
      assert k !in ks';
    }
  }

  /**
   The groups partition the rows: summing a weight group by group over a
   repetition-free list of all the keys gives the sum over all rows.
   */
  lemma {:induction false} GroupsPartition<T, K>(s: seq<T>, key: T -> K, ks: seq<K>, w: T -> int)
    requires Distinct(ks)
    requires KeySet(s, key) <= Elements(ks)
    ensures SumGroups(s, key, ks, w) == SumW(s, w)
    decreases |s|
  {
    if |s| == 0 {
      SumGroupsEmpty(key, ks, w);
    } else {
      var init, x := s[..|s| - 1], s[|s| - 1];
      assert s == init + [x];
      KeySetSnoc(init, x, key);
      GroupsPartition(init, key, ks, w);
      SumGroupsSnoc(init, x, key, ks, w);
    }
  }

  function One<T>(x: T): int {
    1
  }

  lemma {:induction false} SumOneIsLength<T>(s: seq<T>)
    ensures SumW(s, One) == |s|
    decreases |s|
  {
    if |s| > 0 {
      SumOneIsLength(s[..|s| - 1]);
    }
  }
}
