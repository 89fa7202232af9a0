/**
 * The relational building blocks behind the aggregate queries, over a
 * sequence of (key, amount) pairs: `SUM(amount)` overall and per key,
 * `GROUP BY key`, and `ORDER BY` an integer rank.
 */
module Grouping {

  /** `SUM(amount)` over all pairs; 0 for no pairs, as `COALESCE(SUM(..), 0)`. */
  function SumOf<K>(ps: seq<(K, int)>): int {
    if ps == [] then 0 else ps[0].1 + SumOf(ps[1..])
  }

  /** The distinct keys occurring in `ps`. */
  function KeySet<K>(ps: seq<(K, int)>): set<K> {
    if ps == [] then {} else {ps[0].0} + KeySet(ps[1..])
  }

  /** `SUM(amount) WHERE key = k`; 0 when `k` does not occur. */
  function KeySum<K(==,!new)>(ps: seq<(K, int)>, k: K): int {
    if ps == [] then 0
    else (if ps[0].0 == k then ps[0].1 else 0) + KeySum(ps[1..], k)
  }

  /** No key occurs twice. */
  predicate DistinctKeys<K(==,!new)>(ps: seq<(K, int)>) {
    ps == [] || (ps[0].0 !in KeySet(ps[1..]) && DistinctKeys(ps[1..]))
  }

  /** `ps` lists its pairs by non-decreasing rank. */
  predicate Ordered<K>(ps: seq<(K, int)>, rank: ((K, int)) -> int) {
    forall i, j :: 0 <= i < j < |ps| ==> rank(ps[i]) <= rank(ps[j])
  }

  lemma {:induction false} KeySetIndex<K(!new)>(ps: seq<(K, int)>, k: K)
    ensures k in KeySet(ps) <==> exists i :: 0 <= i < |ps| && ps[i].0 == k
  {
    if ps != [] {
      KeySetIndex(ps[1..], k);
      if k in KeySet(ps[1..]) {
        var i :| 0 <= i < |ps[1..]| && ps[1..][i].0 == k;
        assert ps[i + 1].0 == k;
      }
      if exists i :: 0 <= i < |ps| && ps[i].0 == k {
        var i :| 0 <= i < |ps| && ps[i].0 == k;
        if i > 0 {
          assert ps[1..][i - 1].0 == k;
        }
      }
    }
  }

  lemma {:induction false} DistinctKeysIndex<K(!new)>(ps: seq<(K, int)>)
    ensures DistinctKeys(ps) <==> forall i, j :: 0 <= i < j < |ps| ==> ps[i].0 != ps[j].0
  {
    if ps != [] {
      var tail := ps[1..];
      DistinctKeysIndex(tail);
      KeySetIndex(tail, ps[0].0);
      if DistinctKeys(ps) {
        forall i, j | 0 <= i < j < |ps| ensures ps[i].0 != ps[j].0 {
          if i > 0 {
            assert ps[i].0 == tail[i - 1].0 && ps[j].0 == tail[j - 1].0;
          } else {
            assert ps[j].0 == tail[j - 1].0;
          }
        }
      }
      if forall i, j :: 0 <= i < j < |ps| ==> ps[i].0 != ps[j].0 {
        forall i, j | 0 <= i < j < |tail| ensures tail[i].0 != tail[j].0 {
          assert tail[i] == ps[i + 1] && tail[j] == ps[j + 1];
        }
        forall j | 0 <= j < |tail| ensures tail[j].0 != ps[0].0 {
          assert tail[j] == ps[j + 1];
        }
      }
    }
  }

  /** With distinct keys there are exactly as many pairs as keys. */
  lemma {:induction false} DistinctKeysCount<K(!new)>(ps: seq<(K, int)>)
    requires DistinctKeys(ps)
    ensures |KeySet(ps)| == |ps|
  {
    if ps != [] {
      DistinctKeysCount(ps[1..]);
    }
  }

  lemma {:induction false} KeySumAbsent<K(!new)>(ps: seq<(K, int)>, k: K)
    requires k !in KeySet(ps)
    ensures KeySum(ps, k) == 0
  {
    if ps != [] {
      KeySumAbsent(ps[1..], k);
    }
  }

  /** With distinct keys, each pair holds the whole sum for its key. */
  lemma {:induction false} DistinctKeySum<K(!new)>(ps: seq<(K, int)>, i: int)
    requires DistinctKeys(ps)
    requires 0 <= i < |ps|
    ensures KeySum(ps, ps[i].0) == ps[i].1
  {
    if i == 0 {
      KeySumAbsent(ps[1..], ps[0].0);
    } else {
      DistinctKeySum(ps[1..], i - 1);
      KeySetIndex(ps[1..], ps[i].0);
      assert ps[0].0 != ps[i].0;
    }
  }

  /**
   * Adds the amount of pair `p` into the grouped sequence `g`: into the
   * entry for `p`'s key if there is one, otherwise as a new entry at the end.
   */
  function Merge<K(==,!new)>(p: (K, int), g: seq<(K, int)>): (r: seq<(K, int)>)
    ensures KeySet(r) == KeySet(g) + {p.0}
    ensures DistinctKeys(g) ==> DistinctKeys(r)
    ensures SumOf(r) == SumOf(g) + p.1
    ensures forall k :: KeySum(r, k) == KeySum(g, k) + (if k == p.0 then p.1 else 0)
  {
    if g == [] then [p]
    else if g[0].0 == p.0 then [(p.0, g[0].1 + p.1)] + g[1..]
    else [g[0]] + Merge(p, g[1..])
  }

  /**
   * `GROUP BY key` with `SUM(amount)`: one entry per distinct key, in order
   * of first occurrence, each carrying the same per-key sums as the input.
   */
  function Group<K(==,!new)>(ps: seq<(K, int)>): (g: seq<(K, int)>)
    ensures DistinctKeys(g)
    ensures KeySet(g) == KeySet(ps)
    ensures forall k :: KeySum(g, k) == KeySum(ps, k)
    ensures SumOf(g) == SumOf(ps)
  {
    if ps == [] then [] else Merge(ps[0], Group(ps[1..]))
  }

  /** Inserts `p` into `s` after every pair of no greater rank. */
  function InsertBy<K(==,!new)>(p: (K, int), s: seq<(K, int)>, rank: ((K, int)) -> int): (r: seq<(K, int)>)
    ensures multiset(r) == multiset(s) + multiset{p}
  {
    if s == [] then [p]
    else if rank(p) <= rank(s[0]) then [p] + s
    else
      assert s == [s[0]] + s[1..];
      [s[0]] + InsertBy(p, s[1..], rank)
  }

  lemma {:induction false} InsertByOrdered<K(!new)>(p: (K, int), s: seq<(K, int)>, rank: ((K, int)) -> int)
    requires Ordered(s, rank)
    ensures Ordered(InsertBy(p, s, rank), rank)
  {
    if s != [] && rank(s[0]) < rank(p) {
      var tail := s[1..];
      assert Ordered(tail, rank) by {
        forall i, j | 0 <= i < j < |tail| ensures rank(tail[i]) <= rank(tail[j]) {
          assert tail[i] == s[i + 1] && tail[j] == s[j + 1];
        }
      }
      InsertByOrdered(p, tail, rank);
      var rest := InsertBy(p, tail, rank);
      forall x | x in rest ensures rank(s[0]) <= rank(x) {
        assert x in multiset(rest);
        if x != p {
          assert x in multiset(tail);
          var k :| 0 <= k < |tail| && tail[k] == x;
          assert s[k + 1] == x;
        }
      }
      OrderedCons(s[0], rest, rank);
    }
  }

  /** A pair of rank no greater than any in an ordered sequence can go in front. */
  lemma OrderedCons<K>(x: (K, int), rest: seq<(K, int)>, rank: ((K, int)) -> int)
    requires Ordered(rest, rank)
    requires forall y :: y in rest ==> rank(x) <= rank(y)
    ensures Ordered([x] + rest, rank)
  {
    var r := [x] + rest;
    forall i, j | 0 <= i < j < |r| ensures rank(r[i]) <= rank(r[j]) {
      assert r[j] == rest[j - 1];
      if i > 0 {
        assert r[i] == rest[i - 1];
      }
    }
  }

  /** Inserting a pair adds its key and keeps the keys distinct if it was new. */
  lemma {:induction false} InsertByKeys<K(!new)>(p: (K, int), s: seq<(K, int)>, rank: ((K, int)) -> int)
    ensures KeySet(InsertBy(p, s, rank)) == KeySet(s) + {p.0}
    ensures DistinctKeys(s) && p.0 !in KeySet(s) ==> DistinctKeys(InsertBy(p, s, rank))
  {
    var r := InsertBy(p, s, rank);
    if s == [] {
    } else if rank(p) <= rank(s[0]) {
      assert r[1..] == s;
    } else {
      InsertByKeys(p, s[1..], rank);
      assert r[1..] == InsertBy(p, s[1..], rank);
    }
  }

  /** Inserting a pair adds its amount to the total and to its key's sum only. */
  lemma {:induction false} InsertBySums<K(!new)>(p: (K, int), s: seq<(K, int)>, rank: ((K, int)) -> int)
    ensures SumOf(InsertBy(p, s, rank)) == SumOf(s) + p.1
    ensures forall k :: KeySum(InsertBy(p, s, rank), k) == KeySum(s, k) + (if k == p.0 then p.1 else 0)
  {
    var r := InsertBy(p, s, rank);
    if s == [] {
    } else if rank(p) <= rank(s[0]) {
      assert r[1..] == s;
    } else {
      InsertBySums(p, s[1..], rank);
      assert r[1..] == InsertBy(p, s[1..], rank);
    }
  }

  /** Insertion sort by `rank`; ties keep their relative order. */
  function SortBy<K(==,!new)>(s: seq<(K, int)>, rank: ((K, int)) -> int): (r: seq<(K, int)>)
    ensures multiset(r) == multiset(s)
    ensures Ordered(r, rank)
  {
    if s == [] then []
    else
      var sorted := SortBy(s[1..], rank);
      assert s == [s[0]] + s[1..];
      InsertByOrdered(s[0], sorted, rank);
      InsertBy(s[0], sorted, rank)
  }

  /** Sorting keeps the keys and their distinctness. */
  lemma {:induction false} SortByKeys<K(!new)>(s: seq<(K, int)>, rank: ((K, int)) -> int)
    ensures KeySet(SortBy(s, rank)) == KeySet(s)
    ensures DistinctKeys(s) ==> DistinctKeys(SortBy(s, rank))
  {
    if s != [] {
      SortByKeys(s[1..], rank);
      InsertByKeys(s[0], SortBy(s[1..], rank), rank);
    }
  }

  /** Sorting keeps the total and every per-key sum. */
  lemma {:induction false} SortBySums<K(!new)>(s: seq<(K, int)>, rank: ((K, int)) -> int)
    ensures SumOf(SortBy(s, rank)) == SumOf(s)
    ensures forall k :: KeySum(SortBy(s, rank), k) == KeySum(s, k)
  {
    if s != [] {
      var sorted := SortBy(s[1..], rank);
      SortBySums(s[1..], rank);
      InsertBySums(s[0], sorted, rank);
      forall k ensures KeySum(SortBy(s, rank), k) == KeySum(s, k) {
        assert KeySum(SortBy(s, rank), k) == KeySum(sorted, k) + (if k == s[0].0 then s[0].1 else 0);
      }
    }
  }

  /**
   * `SELECT key, SUM(amount) GROUP BY key ORDER BY rank`: one entry per
   * distinct key, holding that key's total, listed by non-decreasing rank.
   */
  function GroupOrderedBy<K(==,!new)>(ps: seq<(K, int)>, rank: ((K, int)) -> int): (r: seq<(K, int)>)
    ensures KeySet(r) == KeySet(ps)
    ensures forall i, j :: 0 <= i < j < |r| ==> r[i].0 != r[j].0
    ensures forall i :: 0 <= i < |r| ==> r[i].1 == KeySum(ps, r[i].0)
    ensures Ordered(r, rank)
    ensures SumOf(r) == SumOf(ps)
  {
    var r := SortBy(Group(ps), rank);
    SortByKeys(Group(ps), rank);
    SortBySums(Group(ps), rank);
    DistinctKeysIndex(r);
    assert forall i :: 0 <= i < |r| ==> r[i].1 == KeySum(r, r[i].0) by {
      forall i | 0 <= i < |r| ensures r[i].1 == KeySum(r, r[i].0) {
        DistinctKeySum(r, i);
      }
    }
    r
  }
}
